/** Whole-list operations of `list.h`: splicing, cutting, rotating, moving a segment. */
module ListCuts {
  import opened Lists
  import opened ListOps

  /** `__list_splice`: `s` runs from `next` round to `prev`; `t` are the entries of `list`. */
  method SpliceBetween(list: ListHead, prev: ListHead, next: ListHead, ghost s: Nodes, ghost t: Nodes)
    requires Path(s) && Path(t) && Distinct(s + t) && |s| > 0 && |t| > 0
    requires next == s[0] && prev == s[|s| - 1] && list.next == t[0] && list.prev == t[|t| - 1]
    modifies prev, next, list.next, list.prev
    ensures Ring(s + t)
  {
    ghost var all := s + t;
    ApartParts(s, t);
    var first := list.next;
    var last := list.prev;
    first.prev := prev;
    prev.next := first;
    last.next := next;
    next.prev := last;
    StillPath(s);
    StillPath(t);
    CloseTwo(s, t);
  }

  // ----- tests

  method ListEmpty(head: ListHead, ghost a: Nodes) returns (empty: bool)
    requires Ring([head] + a)
    ensures empty <==> a == []
  {
    ghost var s := [head] + a;
    Around(s);
    assert s[0] == head;
    empty := head.next == head;
  }

  method ListIsSingular(head: ListHead, ghost a: Nodes) returns (singular: bool)
    requires Ring([head] + a)
    ensures singular <==> |a| == 1
  {
    ghost var s := [head] + a;
    Around(s);
    assert s[0] == head;
    singular := head.next != head && head.next == head.prev;
  }

  // ----- splicing

  lemma {:induction false} Entries(head: ListHead, a: Nodes)
    requires Ring([head] + a)
    ensures a == [] ==> head.next == head && head.prev == head
    ensures a != [] ==> head.next == a[0] && head.prev == a[|a| - 1] && a[0].prev == head && a[|a| - 1].next == head
    ensures Path(a) && Distinct(a) && head !in a
  {
    var s := [head] + a;
    Around(s);
    PathOfRing(s, 1, |s|);
    assert s[1..|s|] == a && s[0] == head;
    ApartParts([head], a);
  }

  lemma {:induction false} SpliceApart<T>(head: T, a: seq<T>, list: T, t: seq<T>)
    requires Distinct([head] + a) && Distinct(t) && Apart([head] + a, [list] + t)
    ensures Distinct(a + [head] + t) && Distinct([head] + a + t)
    ensures list !in [head] + a + t || list in t
  {
    var r := a + [head];
    ApartParts([head], a);
    assert head in [head] + a && list in [list] + t;
    assert forall x :: x in a ==> x in [head] + a;
    assert forall x :: x in t ==> x in [list] + t;
    ApartAt(r, t);
    ApartAt([head] + a, t);
  }

  lemma {:induction false} OpenAfter(head: ListHead, a: Nodes)
    requires Ring([head] + a)
    ensures Path(a + [head]) && Path([head] + a)
    ensures head.next == (a + [head])[0] && head.prev == ([head] + a)[|a|]
  {
    Entries(head, a);
    if a == [] {
      assert a + [head] == [head] && [head] + a == [head];
    } else {
      Join(a, [head]);
      Join([head], a);
    }
  }

  lemma {:induction false} CloseAfter(head: ListHead, a: Nodes, t: Nodes)
    requires Ring(a + [head] + t)
    ensures Ring([head] + t + a)
  {
    var r := a + [head] + t;
    assert From(r, |a|) == [head] + t + a;
    Rotate(r, |a|, [head] + t + a);
  }

  /** `list_splice`: the entries of `list` come first on `head`. The head `list` is left
      with its old pointers. */
  method ListSplice(list: ListHead, head: ListHead, ghost t: Nodes, ghost a: Nodes)
    requires Ring([list] + t) && Ring([head] + a) && Apart([head] + a, [list] + t)
    modifies head, a, t
    ensures Ring([head] + t + a)
    ensures t == [] ==> Ring([list])
  {
    Entries(list, t);
    Entries(head, a);
    var empty := ListEmpty(list, t);
    if !empty {
      OpenAfter(head, a);
      SpliceApart(head, a, list, t);
      SpliceBetween(list, head, head.next, a + [head], t);
      CloseAfter(head, a, t);
    } else {
      assert [head] + t + a == [head] + a && [list] + t == [list];
    }
  }

  /** `list_splice_tail`: the entries of `list` come last on `head`. */
  method ListSpliceTail(list: ListHead, head: ListHead, ghost t: Nodes, ghost a: Nodes)
    requires Ring([list] + t) && Ring([head] + a) && Apart([head] + a, [list] + t)
    modifies head, a, t
    ensures Ring([head] + a + t)
    ensures t == [] ==> Ring([list])
  {
    Entries(list, t);
    Entries(head, a);
    var empty := ListEmpty(list, t);
    if !empty {
      OpenAfter(head, a);
      SpliceApart(head, a, list, t);
      SpliceBetween(list, head.prev, head, [head] + a, t);
    } else {
      assert [head] + a + t == [head] + a && [list] + t == [list];
    }
  }

  method ListSpliceInit(list: ListHead, head: ListHead, ghost t: Nodes, ghost a: Nodes)
    requires Ring([list] + t) && Ring([head] + a) && Apart([head] + a, [list] + t)
    modifies head, a, list, t
    ensures Ring([head] + t + a) && Ring([list])
  {
    Entries(list, t);
    Entries(head, a);
    SpliceApart(head, a, list, t);
    var empty := ListEmpty(list, t);
    ListSplice(list, head, t, a);
    if !empty {
      ghost var r := [head] + t + a;
      assert list !in r;
      label Spliced:
      InitListHead(list);
      StillRing@Spliced(r);
    }
  }

  method ListSpliceTailInit(list: ListHead, head: ListHead, ghost t: Nodes, ghost a: Nodes)
    requires Ring([list] + t) && Ring([head] + a) && Apart([head] + a, [list] + t)
    modifies head, a, list, t
    ensures Ring([head] + a + t) && Ring([list])
  {
    Entries(list, t);
    Entries(head, a);
    SpliceApart(head, a, list, t);
    var empty := ListEmpty(list, t);
    ListSpliceTail(list, head, t, a);
    if !empty {
      ghost var r := [head] + a + t;
      assert list !in r;
      label Spliced:
      InitListHead(list);
      StillRing@Spliced(r);
    }
  }

  // ----- moving a segment to the tail

  lemma {:induction false} ApartThree<T>(a: seq<T>, f: seq<T>, b: seq<T>)
    requires Distinct(a + f + b)
    ensures Distinct(a) && Distinct(f) && Distinct(b) && Distinct(a + b + f)
    ensures forall i, j :: 0 <= i < |a| && 0 <= j < |f| ==> a[i] != f[j]
    ensures forall i, j :: 0 <= i < |a| && 0 <= j < |b| ==> a[i] != b[j]
    ensures forall i, j :: 0 <= i < |f| && 0 <= j < |b| ==> f[i] != b[j]
  {
    ApartParts(a + f, b);
    ApartParts(a, f);
    forall i, j | 0 <= i < |a| && 0 <= j < |b| ensures a[i] != b[j] { assert (a + f)[i] != b[j]; }
    forall i, j | 0 <= i < |f| && 0 <= j < |b| ensures f[i] != b[j] { assert (a + f)[|a| + i] != b[j]; }
  }

  lemma {:induction false} CloseThree(a: Nodes, b: Nodes, f: Nodes)
    requires |a| > 0 && |f| > 0 && Path(a) && Path(f) && Path(b) && Distinct(a + b + f)
    requires Joined(f, a) && (if b == [] then Joined(a, f) else Joined(a, b) && Joined(b, f))
    ensures Ring(a + b + f)
  {
    if b == [] { assert a + b == a; } else { Join(a, b); }
    CloseTwo(a + b, f);
  }

  /** The pointer writes of `list_bulk_move_tail`. */
  method RelinkSegment(head: ListHead, first: ListHead, last: ListHead, ghost a: Nodes, ghost f: Nodes, ghost b: Nodes)
    requires |a| > 0 && |f| > 0 && Path(a) && Path(f) && Path(b) && Distinct(a + f + b)
    requires Joined(a, f) && (if b == [] then Joined(f, a) else Joined(f, b) && Joined(b, a))
    requires head == a[0] && first == f[0] && last == f[|f| - 1]
    modifies a, f, b
    ensures Ring(a + b + f)
  {
    ApartThree(a, f, b);
    first.prev.next := last.next;
    last.next.prev := first.prev;

    head.prev.next := first;
    first.prev := head.prev;

    last.next := head;
    head.prev := last;
    assert Path(a) by { StillPath(a); }
    assert Path(f) by { StillPath(f); }
    assert Path(b) by { StillPath(b); }
    CloseThree(a, b, f);
  }

  lemma {:induction false} OpenThree(a: Nodes, f: Nodes, b: Nodes)
    requires |a| > 0 && |f| > 0 && Ring(a + f + b)
    ensures Path(a) && Path(f) && Path(b) && Distinct(a + f + b) && Joined(a, f)
    ensures if b == [] then Joined(f, a) else Joined(f, b) && Joined(b, a)
  {
    if b == [] {
      assert a + f + b == a + f;
      OpenTwo(a, f);
    } else {
      OpenTwo(a + f, b);
      Split(a, f);
    }
  }

  /** `list_bulk_move_tail` moves the segment `f` behind everything else, also when it is
      already the tail (`b` empty) or the whole list (`a` only the head, `b` empty). */
  method ListBulkMoveTail(head: ListHead, first: ListHead, last: ListHead, ghost a: Nodes, ghost f: Nodes, ghost b: Nodes)
    requires |a| > 0 && |f| > 0 && Ring(a + f + b)
    requires head == a[0] && first == f[0] && last == f[|f| - 1]
    modifies a, f, b
    ensures Ring(a + b + f)
  {
    OpenThree(a, f, b);
    RelinkSegment(head, first, last, a, f, b);
  }

  // ----- cutting

  lemma {:induction false} CutApart<T>(list: T, head: T, a: seq<T>, b: seq<T>)
    requires Distinct([head] + a + b) && list !in [head] + a + b
    ensures Distinct([list] + a) && Distinct([head] + b) && Distinct(a) && Distinct(b)
    ensures list !in a && list !in b && head !in a && head !in b && list != head
    ensures forall i, j :: 0 <= i < |a| && 0 <= j < |b| ==> a[i] != b[j]
  {
    ApartThree([head], a, b);
    assert forall x :: x in a ==> x in [head] + a + b;
    assert forall x :: x in b ==> x in [head] + a + b;
    assert head in [head] + a + b;
    forall x | x in a ensures x != head { assert [head][0] != x; }
    forall x | x in b ensures x != head { assert [head][0] != x; }
    ApartAt([list], a);
    ApartAt([head], b);
  }

  lemma {:induction false} CloseHead(head: ListHead, a: Nodes)
    requires Path(a) && Distinct([head] + a)
    requires if a == [] then head.next == head && head.prev == head
             else head.next == a[0] && a[0].prev == head && a[|a| - 1].next == head && head.prev == a[|a| - 1]
    ensures Ring([head] + a)
  {
    if a == [] {
      assert [head] + a == [head];
    } else {
      CloseTwo([head], a);
    }
  }

  /** `__list_cut_position` */
  method CutBehind(list: ListHead, head: ListHead, entry: ListHead, ghost a: Nodes, ghost b: Nodes)
    requires |a| > 0 && entry == a[|a| - 1] && list !in [head] + a + b && Distinct([head] + a + b)
    requires Path(a) && Path(b) && head.next == a[0]
    requires entry.next == (if b == [] then head else b[0])
    requires if b == [] then head.prev == entry else head.prev == b[|b| - 1] && b[|b| - 1].next == head
    modifies list, head, a, b
    ensures Ring([list] + a) && Ring([head] + b)
  {
    CutApart(list, head, a, b);
    var newFirst := entry.next;
    list.next := head.next;
    list.next.prev := list;
    list.prev := entry;
    entry.next := list;
    head.next := newFirst;
    newFirst.prev := head;
    assert Path(a) by { StillPath(a); }
    assert Path(b) by { StillPath(b); }
    CloseHead(list, a);
    CloseHead(head, b);
  }

  lemma {:induction false} OpenCut(head: ListHead, a: Nodes, b: Nodes)
    requires Ring([head] + a + b)
    ensures Path(a) && Path(b) && Distinct([head] + a + b) && Ring([head] + (a + b))
    ensures a + b == [] <==> head.next == head
    ensures head.next == (if a != [] then a[0] else if b != [] then b[0] else head)
    ensures head.prev == (if b != [] then b[|b| - 1] else if a != [] then a[|a| - 1] else head)
    ensures a != [] ==> a[|a| - 1].next == (if b != [] then b[0] else head)
    ensures b != [] ==> b[|b| - 1].next == head && b[0].prev == (if a != [] then a[|a| - 1] else head)
  {
    assert [head] + a + b == [head] + (a + b);
    Entries(head, a + b);
    if a != [] && b != [] { Split(a, b); }
    assert a == [] ==> a + b == b;
    assert b == [] ==> a + b == a;
  }

  /** `list_cut_position` moves the entries up to and including `entry` to `list`; nothing
      moves when `entry` is the head. On an empty `head` it does not touch `list` at all, and
      on an empty or one-entry list an entry from elsewhere changes nothing. */
  method ListCutPosition(list: ListHead, head: ListHead, entry: ListHead, ghost a: Nodes, ghost b: Nodes)
    requires Ring([head] + a + b) && list !in [head] + a + b
    requires entry == (if a == [] then head else a[|a| - 1]) || (entry !in [head] + a + b && |a + b| <= 1)
    modifies list, head, a, b
    ensures entry in [head] + a + b ==> Ring([head] + b)
    ensures entry in [head] + a + b && (a + b != [] || old(Ring([list]))) ==> Ring([list] + a)
    ensures entry !in [head] + a + b ==> Ring([head] + a + b)
    ensures a + b == [] || entry !in [head] + a + b ==> list.next == old(list.next) && list.prev == old(list.prev)
  {
    OpenCut(head, a, b);
    var empty := ListEmpty(head, a + b);
    if empty {
      NothingCut(list, head, a, b);
      return;
    }
    var singular := ListIsSingular(head, a + b);
    if singular && entry != head && entry != head.next {
      return;
    }
    CutApart(list, head, a, b);
    if entry == head {
      NothingCut(list, head, a, b);
      InitListHead(list);
      StillRing([head] + b);
    } else {
      CutBehind(list, head, entry, a, b);
    }
  }

  lemma {:induction false} NothingCut<T>(list: T, head: T, a: seq<T>, b: seq<T>)
    requires a == []
    ensures [head] + a + b == [head] + b && [list] + a == [list]
  {
  }

  /** `list_cut_before` moves the entries before `entry` to `list`; all of them when `entry`
      is the head. */
  method ListCutBefore(list: ListHead, head: ListHead, entry: ListHead, ghost a: Nodes, ghost b: Nodes)
    requires Ring([head] + a + b) && list !in [head] + a + b
    requires entry == if b == [] then head else b[0]
    modifies list, head, a, b
    ensures Ring([list] + a) && Ring([head] + b)
  {
    OpenCut(head, a, b);
    CutApart(list, head, a, b);
    if head.next == entry {
      NothingCut(list, head, a, b);
      InitListHead(list);
      StillRing([head] + b);
      return;
    }
    DetachBefore(list, head, entry, a, b);
  }

  /** The pointer writes of `list_cut_before`. */
  method DetachBefore(list: ListHead, head: ListHead, entry: ListHead, ghost a: Nodes, ghost b: Nodes)
    requires |a| > 0 && entry == (if b == [] then head else b[0]) && list !in [head] + a + b
    requires Distinct([head] + a + b) && Path(a) && Path(b) && head.next == a[0]
    requires entry.prev == a[|a| - 1]
    requires b != [] ==> head.prev == b[|b| - 1] && b[|b| - 1].next == head
    modifies list, head, a, b
    ensures Ring([list] + a) && Ring([head] + b)
  {
    CutApart(list, head, a, b);
    list.next := head.next;
    list.next.prev := list;
    list.prev := entry.prev;
    list.prev.next := list;
    head.next := entry;
    entry.prev := head;
    assert Path(a) by { StillPath(a); }
    assert Path(b) by { StillPath(b); }
    CloseHead(list, a);
    CloseHead(head, b);
  }

  /** Cutting and splicing back restores the list. */
  method CutThenSplice(list: ListHead, head: ListHead, entry: ListHead, ghost a: Nodes, ghost b: Nodes)
    requires Ring([list]) && Ring([head] + a + b) && list !in [head] + a + b
    requires entry == if a == [] then head else a[|a| - 1]
    modifies list, head, a, b
    ensures Ring([head] + a + b)
  {
    OpenCut(head, a, b);
    CutApart(list, head, a, b);
    ListCutPosition(list, head, entry, a, b);
    assert Apart([head] + b, [list] + a) by { ApartBack(list, head, a, b); }
    ListSplice(list, head, a, b);
  }

  lemma {:induction false} ApartBack<T>(list: T, head: T, a: seq<T>, b: seq<T>)
    requires Distinct([head] + a + b) && list !in [head] + a + b
    ensures Apart([head] + b, [list] + a)
  {
    CutApart(list, head, a, b);
  }

  // ----- rotating

  method ListRotateLeft(head: ListHead, ghost a: Nodes)
    requires Ring([head] + a)
    modifies head, a
    ensures if a == [] then Ring([head]) else Ring([head] + a[1..] + [a[0]])
  {
    ghost var s := [head] + a;
    Entries(head, a);
    var empty := ListEmpty(head, a);
    if !empty {
      var first := head.next;
      ListMoveTail(first, head, s, 1, s, 0);
      assert InsertBefore(RemoveAt(s, 1), 0, [first]) == [head] + a[1..] + [a[0]];
    } else {
      assert s == [head];
    }
  }

  /** `list_rotate_to_front` moves the head in front of the chosen entry. */
  method ListRotateToFront(list: ListHead, head: ListHead, ghost a: Nodes, ghost b: Nodes)
    requires Ring([head] + a + b) && b != [] && list == b[0]
    modifies head, a, b
    ensures Ring([head] + b + a)
  {
    ghost var s := [head] + a + b;
    assert s[0] == head && s[1 + |a|] == list;
    ListMoveTail(head, list, s, 0, s, 1 + |a|);
    FrontRotated(head, a, b);
  }

  lemma {:induction false} FrontRotated(head: ListHead, a: Nodes, b: Nodes)
    requires b != [] && Ring(InsertBefore(RemoveAt([head] + a + b, 0), |a|, [head]))
    ensures Ring([head] + b + a)
  {
    var u := RemoveAt([head] + a + b, 0);
    assert u == a + b;
    var r := InsertBefore(u, |a|, [head]);
    if a == [] {
      assert r == b + [head];
      Rotate(r, |b|, [head] + b + a);
    } else {
      assert r == a + [head] + b;
      Rotate(r, |a|, [head] + b + a);
    }
  }
}
