/** The compound operations of `list.h` on single nodes: moving and swapping. */
module ListOps {
  import opened Lists

  /** Where position `k` ends up when position `gone` is removed. */
  function Shifted(k: nat, gone: nat): nat
    requires k != gone
  {
    if k < gone then k else k - 1
  }

  lemma {:induction false} RemoveMembers<T>(s: seq<T>, k: nat)
    requires Distinct(s) && k < |s|
    ensures s[k] !in RemoveAt(s, k)
    ensures forall x :: x in RemoveAt(s, k) ==> x in s
    ensures forall j: nat :: j < |s| && j != k ==> RemoveAt(s, k)[Shifted(j, k)] == s[j]
  {
    var r := RemoveAt(s, k);
    assert forall i :: 0 <= i < |r| ==> r[i] == s[if i < k then i else i + 1];
  }

  // ----- moving one node

  /** `list_move`, within one ring or between two. */
  method ListMove(node: ListHead, head: ListHead, ghost s: Nodes, ghost i: nat, ghost t: Nodes, ghost j: nat)
    requires Ring(s) && i < |s| && s[i] == node && Ring(t) && j < |t| && t[j] == head && node != head
    requires s == t || Apart(s, t)
    modifies s, t
    ensures s == t ==> Ring(InsertAfter(RemoveAt(s, i), Shifted(j, i), [node]))
    ensures s != t ==> Ring(InsertAfter(t, j, [node])) && (|s| > 1 ==> Ring(RemoveAt(s, i)))
  {
    RemoveMembers(s, i);
    ghost var rest := RemoveAt(s, i);
    ListDelEntry(node, s, i);
    ghost var u, k := t, j;
    if s != t { StillRing(t); } else { u, k := rest, Shifted(j, i); }
    label Deleted:
    ListAdd(node, head, u, k);
    if s != t && |s| > 1 {
      assert forall x :: x in rest ==> x != node && x !in t;
      StillRing@Deleted(rest);
    }
  }

  /** `list_move_tail`, within one ring or between two. */
  method ListMoveTail(node: ListHead, head: ListHead, ghost s: Nodes, ghost i: nat, ghost t: Nodes, ghost j: nat)
    requires Ring(s) && i < |s| && s[i] == node && Ring(t) && j < |t| && t[j] == head && node != head
    requires s == t || Apart(s, t)
    modifies s, t
    ensures s == t ==> Ring(InsertBefore(RemoveAt(s, i), Shifted(j, i), [node]))
    ensures s != t ==> Ring(InsertBefore(t, j, [node])) && (|s| > 1 ==> Ring(RemoveAt(s, i)))
  {
    RemoveMembers(s, i);
    ghost var rest := RemoveAt(s, i);
    ListDelEntry(node, s, i);
    ghost var u, k := t, j;
    if s != t { StillRing(t); } else { u, k := rest, Shifted(j, i); }
    label Deleted:
    ListAddTail(node, head, u, k);
    if s != t && |s| > 1 {
      assert forall x :: x in rest ==> x != node && x !in t;
      StillRing@Deleted(rest);
    }
  }

  // ----- exchanging two nodes

  /** Putting something back where a node was removed. */
  lemma {:induction false} Reinsert<T>(s: seq<T>, k: nat, x: T)
    requires k < |s| && |s| > 1
    ensures var u := RemoveAt(s, k);
            && (k > 0 ==> InsertAfter(u, k - 1, [x]) == s[k := x])
            && (k == 0 ==> From(InsertAfter(u, |u| - 1, [x]), |u|) == s[k := x])
  {
  }

  lemma {:induction false} RemoveUpdated<T>(s: seq<T>, i: nat, j: nat, x: T)
    requires i < |s| && j < |s| && i != j
    ensures RemoveAt(s[i := x], j) == RemoveAt(s, j)[Shifted(i, j) := x]
  {
  }

  /** Where the node before position `k` is once position `k` is removed. */
  function Before<T>(s: seq<T>, k: nat): nat
    requires k < |s| && |s| > 1
  {
    if k == 0 then |s| - 2 else k - 1
  }

  lemma {:induction false} RingReinserted(s: Nodes, k: nat, x: ListHead)
    requires k < |s| && |s| > 1 && Ring(InsertAfter(RemoveAt(s, k), Before(s, k), [x]))
    ensures Ring(s[k := x])
  {
    Reinsert(s, k, x);
    if k == 0 { Rotate(InsertAfter(RemoveAt(s, k), Before(s, k), [x]), |s| - 1, s[k := x]); }
  }

  /** The ring that receives `x` in place of `y`, and the position of `y` on it. */
  ghost function Receiver<T>(s: seq<T>, i: nat, t: seq<T>, j: nat): (r: (seq<T>, nat))
    requires i < |s| && j < |t| && (s == t ==> i != j)
  {
    if s == t then (RemoveAt(s, j), Shifted(i, j)) else (s, i)
  }

  /** The ring that takes the displaced node, and the position it goes behind. */
  ghost function Acceptor<T>(s: seq<T>, i: nat, t: seq<T>, j: nat, x: T): (r: (seq<T>, nat))
    requires i < |s| && j < |t| && (s == t ==> i != j)
  {
    if s == t then (RemoveAt(s[i := x], j), Before(s, j))
    else if |t| > 1 then (RemoveAt(t, j), Before(t, j))
    else (s[i := x], i)
  }

  lemma {:induction false} SwapPlan<T>(s: seq<T>, i: nat, t: seq<T>, j: nat)
    requires Distinct(s) && Distinct(t) && i < |s| && j < |t| && s[i] != t[j] && (s == t || Apart(s, t))
    ensures var (u, k) := Receiver(s, i, t, j);
            k < |u| && u[k] == s[i] && t[j] !in u && forall x :: x in u ==> x in s
    ensures var (u, k) := Receiver(s, i, t, j); var (v, p) := Acceptor(s, i, t, j, t[j]);
            && p < |v| && v[p] == (if t[Pred(j, |t|)] == s[i] then t[j] else t[Pred(j, |t|)]) && s[i] !in v
            && (s == t || |t| == 1 ==> v == u[k := t[j]])
            && forall x :: x in v ==> x in s || x in t
    ensures s != t && |t| > 1 ==>
              forall x :: x in s[i := t[j]] ==> x != s[i] && x !in Acceptor(s, i, t, j, t[j]).0
  {
    RemoveMembers(t, j);
    var (u, k) := Receiver(s, i, t, j);
    var (v, p) := Acceptor(s, i, t, j, t[j]);
    if s == t {
      RemoveUpdated(s, i, j, t[j]);
      assert v == u[k := t[j]];
      assert u[p] == t[Pred(j, |t|)];
    } else {
      assert s[i] in s && t[j] in t && t[Pred(j, |t|)] in t;
      if |t| > 1 { assert Shifted(Pred(j, |t|), j) == p; }
    }
  }

  /** Lines 191-196 of `list_swap`: `entry2` takes the place of `entry1`, and `pos` is the
      node behind which `entry1` has to go. */
  method TakePlace(entry1: ListHead, entry2: ListHead, ghost s: Nodes, ghost i: nat, ghost t: Nodes, ghost j: nat)
    returns (pos: ListHead)
    requires Ring(s) && i < |s| && s[i] == entry1 && Ring(t) && j < |t| && t[j] == entry2 && entry1 != entry2
    requires s == t || Apart(s, t)
    modifies s, t
    ensures var (v, p) := Acceptor(s, i, t, j, entry2); Ring(v) && p < |v| && pos == v[p]
    ensures s != t ==> Ring(s[i := entry2])
  {
    SwapPlan(s, i, t, j);
    AroundAt(t, j);
    ghost var (u, k) := Receiver(s, i, t, j);
    ghost var (v, p) := Acceptor(s, i, t, j, entry2);
    pos := entry2.prev;

    ListDel(entry2, t, j);
    if s != t { StillRing(s); }
    label Deleted:
    ListReplace(entry1, entry2, u, k);
    if s != t && |t| > 1 { StillRing@Deleted(v); }
    if pos == entry1 {
      pos := entry2;
    }
  }

  lemma {:induction false} SwapDone(s: Nodes, i: nat, t: Nodes, j: nat, entry1: ListHead, entry2: ListHead)
    requires i < |s| && j < |t| && (s == t ==> i != j)
    requires var (v, p) := Acceptor(s, i, t, j, entry2); p < |v| && Ring(InsertAfter(v, p, [entry1]))
    ensures s == t ==> Ring(s[i := entry2][j := entry1])
    ensures s != t && |t| > 1 ==> Ring(t[j := entry1])
    ensures s != t && |t| == 1 ==> Ring(InsertAfter(s[i := entry2], i, [entry1]))
  {
    if s == t {
      RingReinserted(s[i := entry2], j, entry1);
    } else if |t| > 1 {
      RingReinserted(t, j, entry1);
    }
  }

  lemma {:induction false} NotAlone(s: Nodes, k: nat)
    requires Ring(s) && k < |s| && |s| > 1
    ensures !Ring([s[k]])
  {
    AroundAt(s, k);
    var alone := [s[k]];
    assert alone[0].next == s[Succ(k, |s|)] != alone[0];
  }

  /** `list_swap` exchanges the two nodes and nothing else: on one ring, adjacent or not, in
      either order, and on two rings. On two rings it fails exactly when `entry2` is alone on
      its ring: then `entry1` stays on its ring, behind `entry2`. */
  method ListSwap(entry1: ListHead, entry2: ListHead, ghost s: Nodes, ghost i: nat, ghost t: Nodes, ghost j: nat)
    requires Ring(s) && i < |s| && s[i] == entry1 && Ring(t) && j < |t| && t[j] == entry2 && entry1 != entry2
    requires s == t || Apart(s, t)
    modifies s, t
    ensures s == t ==> Ring(s[i := entry2][j := entry1])
    ensures s != t && |t| > 1 ==> Ring(s[i := entry2]) && Ring(t[j := entry1])
    ensures s != t && |t| == 1 ==> Ring(InsertAfter(s[i := entry2], i, [entry1]))
    ensures s != t ==> (Ring(s[i := entry2]) && Ring(t[j := entry1]) <==> |t| > 1)
  {
    SwapPlan(s, i, t, j);
    ghost var (v, p) := Acceptor(s, i, t, j, entry2);
    ghost var w: Nodes := s[i := entry2];
    var pos := TakePlace(entry1, entry2, s, i, t, j);
    label Replaced:
    ListAdd(entry1, pos, v, p);
    if s != t && |t| > 1 {
      assert forall x :: x in w ==> x != entry1 && x !in v;
      StillRing@Replaced(w);
    }
    SwapDone(s, i, t, j, entry1, entry2);
    if s != t && |t| == 1 {
      NotAlone(InsertAfter(s[i := entry2], i, [entry1]), i + 1);
      assert t[j := entry1] == [entry1];
    }
  }
}
