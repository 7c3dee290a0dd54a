/** `sort.c`: in-place heapsort that sifts bottom-up. Positions are element indices; the one
    place where the source needs byte offsets, finding a parent without a division, is
    modelled on offsets. */
module HeapSort {
  import opened Words

  // ----- the parent of a heap element, from its byte offset

  /** `a - b` on words of `w` bits. */
  function Sub(w: nat, a: nat, b: nat): nat {
    (a - b) % Pow2(w)
  }

  lemma {:induction false} AndAtMost(x: nat, y: nat)
    ensures And(x, y) <= x
  {
    AndAndNot(x, y);
  }

  /** `size & -size`, kept in an `unsigned int`. */
  function LsBit(w: nat, size: nat): nat
    requires size < Pow2(w)
  {
    Low(And(size, Neg(w, size)), 32)
  }

  /** `parent` on `size_t` of `w` bits. */
  function Parent(w: nat, i: nat, lsbit: nat, size: nat): nat {
    var i1 := Sub(w, i, size);
    AndAtMost(i1, lsbit);
    Sub(w, i1, And(size, Neg(w, And(i1, lsbit)))) / 2
  }

  /** The parent of element `j`. */
  function Up(j: nat): (p: nat)
    requires j > 0
    ensures p < j
  {
    (j - 1) / 2
  }

  lemma {:induction false} AndPow2(x: nat, k: nat)
    ensures And(x, Pow2(k)) == if Bit(x, k) then Pow2(k) else 0
  {
    var r := if Bit(x, k) then Pow2(k) else 0;
    forall i: nat ensures Bit(And(x, Pow2(k)), i) <==> Bit(r, i) {
      BitAnd(x, Pow2(k), i);
      BitPow2(k, i);
      BitZero(i);
    }
    BitsDetermine(And(x, Pow2(k)), r);
  }

  /** Masking with all bits from its lowest one on leaves a number alone. */
  lemma {:induction false} AndFromLowest(w: nat, x: nat)
    requires 0 < x < Pow2(w)
    ensures Ffs(x) < w && Pow2(Ffs(x)) < Pow2(w) && And(x, Neg(w, Pow2(Ffs(x)))) == x
  {
    var k := Ffs(x);
    AndNeg(w, x);
    Pow2Mono(k, w);
    forall i: nat ensures Bit(And(x, Neg(w, Pow2(k))), i) <==> Bit(x, i) {
      BitAnd(x, Neg(w, Pow2(k)), i);
      NegPow2Bit(w, k, i);
      FfsLowest(x, i);
      if i >= w { BitBeyond(x, w, i); }
    }
    BitsDetermine(And(x, Neg(w, Pow2(k))), x);
  }

  lemma {:induction false} OddProduct(n: nat, c: nat)
    requires c % 2 == 1
    ensures n * c % 2 == n % 2
  {
    if n >= 2 {
      OddProduct(n - 2, c);
      assert n * c == 2 * c + (n - 2) * c by { Distribute(n, 2, c); }
      assert (n - 2) * c >= 0 by { MulMono(0, n - 2, c); }
      HalfOfSum(c, (n - 2) * c);
    }
  }

  /** The lowest bit of `size` tells odd multiples from even ones. */
  lemma {:induction false} MultipleParity(n: nat, size: nat)
    requires size > 0
    ensures n * size >= 0 && (Bit(n * size, Ffs(size)) <==> n % 2 == 1)
  {
    var k := Ffs(size);
    var c := LowBitDivides(size);
    Rearrange(n, c, Pow2(k));
    BitShl(n * c, k, k);
    OddProduct(n, c);
  }

  lemma {:induction false} HalfMultiple(n: nat, size: nat)
    requires n % 2 == 0
    ensures n * size / 2 == (n / 2) * size
  {
    Rearrange(2, n / 2, size);
    assert n * size == 2 * ((n / 2) * size);
  }

  lemma {:induction false} LsBitValue(w: nat, size: nat)
    requires w >= 32 && 0 < size < Pow2(w)
    ensures LsBit(w, size) == if Ffs(size) < 32 then Pow2(Ffs(size)) else 0
  {
    var k := Ffs(size);
    AndNeg(w, size);
    if k < 32 {
      Pow2Mono(k, 32);
      ModSmall(Pow2(k), Pow2(32));
    } else {
      Pow2Add(k - 32, 32);
      MultipleMod(Pow2(k - 32), Pow2(32), 0);
    }
  }

  lemma {:induction false} LowBitsClear(size: nat)
    requires size > 0
    ensures Ffs(size) < 32 <==> size % Pow2(32) != 0
  {
    if Ffs(size) < 32 {
      BitMod(size, 32, Ffs(size));
      FfsLowest(size, 0);
      BitZero(Ffs(size));
    } else {
      forall i: nat ensures Bit(Low(size, 32), i) <==> Bit(0, i) {
        BitMod(size, 32, i);
        BitZero(i);
        FfsLowest(size, i);
      }
      BitsDetermine(Low(size, 32), 0);
    }
  }

  /** What is subtracted: the element size at odd multiples, nothing at even ones. */
  lemma {:induction false} Subtrahend(w: nat, n: nat, size: nat, i: nat)
    requires w >= 32 && 0 < size < Pow2(w) && i == n * size < Pow2(w)
    ensures And(i, LsBit(w, size)) < Pow2(w)
    ensures And(size, Neg(w, And(i, LsBit(w, size)))) == if Ffs(size) < 32 && n % 2 == 1 then size else 0
  {
    LsBitValue(w, size);
    AndAtMost(i, LsBit(w, size));
    MultipleParity(n, size);
    if Ffs(size) < 32 {
      AndPow2(i, Ffs(size));
      AndFromLowest(w, size);
    } else {
      AndZero(i);
    }
    AndZero(size);
  }

  lemma {:induction false} ParentFrom(w: nat, i0: nat, lsbit: nat, size: nat, i: nat, t: nat)
    requires i0 - size == i < Pow2(w) && t <= i && And(i, lsbit) < Pow2(w)
    requires And(size, Neg(w, And(i, lsbit))) == t
    ensures Parent(w, i0, lsbit, size) == (i - t) / 2
  {
    ModSmall(i, Pow2(w));
    ModSmall(i - t, Pow2(w));
  }

  lemma {:induction false} ParentHalf(n: nat, size: nat, i: nat, t: nat)
    requires i == n * size && t == if n % 2 == 1 then size else 0
    ensures t <= i && (i - t) / 2 == (n / 2) * size
  {
    if n % 2 == 1 {
      assert i - size == (n - 1) * size by { Distribute(n, 1, size); }
      assert (n - 1) * size >= 0 by { MulMono(0, n - 1, size); }
      HalfMultiple(n - 1, size);
    } else {
      assert i >= 0 by { MulMono(0, n, size); }
      HalfMultiple(n, size);
    }
  }

  /** What the branch-free code computes, for either value of the bit mask. */
  lemma {:induction false} ParentValue(w: nat, j: nat, size: nat, i0: nat)
    requires w >= 32 && j > 0 && 0 < size && i0 == j * size < Pow2(w)
    ensures size < Pow2(w) && (j - 1) * size >= 0
    ensures Parent(w, i0, LsBit(w, size), size) == if Ffs(size) < 32 then Up(j) * size else (j - 1) * size / 2
  {
    assert size <= i0 by { MulMono(1, j, size); }
    assert (j - 1) * size == i0 - size by { Distribute(j, 1, size); }
    var i := i0 - size;
    Subtrahend(w, j - 1, size, i);
    if Ffs(size) < 32 {
      var t := if (j - 1) % 2 == 1 then size else 0;
      ParentHalf(j - 1, size, i, t);
      ParentFrom(w, i0, LsBit(w, size), size, i, t);
    } else {
      ParentFrom(w, i0, LsBit(w, size), size, i, 0);
    }
  }

  lemma {:induction false} AndZero(x: nat)
    ensures And(x, 0) == 0
  {
  }

  ghost predicate ParentRight(w: nat, size: nat, j: nat)
    requires size < Pow2(w) && j > 0
  {
    Parent(w, j * size, LsBit(w, size), size) == Up(j) * size
  }

  lemma {:induction false} ParentRightIff(w: nat, size: nat, j: nat)
    requires w >= 32 && 0 < size && j > 0 && j * size < Pow2(w)
    ensures size < Pow2(w)
    ensures size % Pow2(32) != 0 ==> ParentRight(w, size, j)
    ensures j == 2 && size % Pow2(32) == 0 ==> !ParentRight(w, size, j)
  {
    ParentValue(w, j, size, j * size);
    LowBitsClear(size);
    if size % Pow2(32) == 0 {
      QuotientBracket(size, Pow2(32));
      Pow2Mono(0, 32);
      assert size >= 2;
    }
  }

  /** The parent is found at every offset if and only if the lowest bit of the element size
      fits an `unsigned int`. */
  lemma {:induction false} ParentsRightIff(w: nat, size: nat)
    requires w >= 32 && 0 < size && 2 * size < Pow2(w)
    ensures (forall j: nat :: 0 < j && j * size < Pow2(w) ==> ParentRight(w, size, j)) <==> size % Pow2(32) != 0
  {
    ParentRightIff(w, size, 2);
    forall j: nat | 0 < j && j * size < Pow2(w) && size % Pow2(32) != 0 ensures ParentRight(w, size, j) {
      ParentRightIff(w, size, j);
    }
  }

  // ----- ancestors

  /** `x` is `y` or an ancestor of `y`. */
  predicate Above(x: nat, y: nat) {
    x == y || (x < y && Above(x, Up(y)))
  }

  /** The child of `x` on the way to `y`. */
  function Toward(x: nat, y: nat): (t: nat)
    requires x < y && Above(x, y)
    ensures x < t <= y && Up(t) == x && Above(t, y)
  {
    AboveAtMost(x, Up(y));
    if Up(y) == x then y else Toward(x, Up(y))
  }

  lemma {:induction false} AboveUp(x: nat, y: nat)
    requires x > 0 && Above(x, y)
    ensures Above(Up(x), y)
  {
    if x < y { AboveUp(x, Up(y)); }
  }

  /** Ancestors of `c` have no further ancestor of `c` between them and their parent. */
  lemma {:induction false} NoneBetween(x: nat, b: nat, c: nat)
    requires 0 < b && Above(b, c) && Above(x, c) && Up(b) <= x <= b
    ensures x == b || x == Up(b)
  {
    if c == b {
      if x < b { AboveAtMost(x, Up(b)); }
    } else if x < c {
      AboveAtMost(b, c);
      NoneBetween(x, b, Up(c));
    }
  }

  lemma {:induction false} AboveAtMost(x: nat, y: nat)
    requires Above(x, y)
    ensures x <= y
  {
  }

  lemma {:induction false} TowardChild(t: nat, c: nat)
    requires t > 0 && Above(t, c)
    ensures Above(Up(t), c) && Up(t) < c && Toward(Up(t), c) == t
  {
    AboveUp(t, c);
    if t < c {
      AboveAtMost(t, Up(c));
      TowardChild(t, Up(c));
    }
  }

  // ----- order and heaps

  /** `cmp` orders the elements: `cmp(x, y) >= 0` is total and transitive. */
  ghost predicate Ordering<T(!new)>(cmp: (T, T) -> int) {
    && (forall x, y :: Geq(cmp, x, y) || Geq(cmp, y, x))
    && (forall x, y, z :: Geq(cmp, x, y) && Geq(cmp, y, z) ==> Geq(cmp, x, z))
  }

  predicate Geq<T>(cmp: (T, T) -> int, x: T, y: T) {
    cmp(x, y) >= 0
  }

  /** Within the first `n` elements, parents from `a` on are not less than their children. */
  ghost predicate HeapFrom<T>(cmp: (T, T) -> int, s: seq<T>, a: nat, n: nat)
    requires n <= |s|
  {
    forall j: nat {:trigger Up(j)} :: 0 < j < n && a <= Up(j) ==> Geq(cmp, s[Up(j)], s[j])
  }

  /** From `n` on, every element is not less than any before it. */
  ghost predicate Tail<T>(cmp: (T, T) -> int, s: seq<T>, n: nat) {
    forall x, y :: 0 <= x < y < |s| && n <= y ==> Geq(cmp, s[y], s[x])
  }

  lemma {:induction false} RootIsLargest<T(!new)>(cmp: (T, T) -> int, s: seq<T>, n: nat, j: nat)
    requires Ordering(cmp) && n <= |s| && HeapFrom(cmp, s, 0, n) && j < n
    ensures Geq(cmp, s[0], s[j])
  {
    if j > 0 {
      RootIsLargest(cmp, s, n, Up(j));
      assert Geq(cmp, s[Up(j)], s[j]);
    } else {
      assert Geq(cmp, s[0], s[0]);
    }
  }

  // ----- sifting down along one path

  function Sibling(b: nat): nat
    requires b > 0
  {
    if b % 2 == 1 then b + 1 else b - 1
  }

  lemma {:induction false} Siblings(i: nat, j: nat)
    requires 0 < i && 0 < j && Up(i) == Up(j) && i != j
    ensures j == Sibling(i)
  {
  }

  /** The path from `a` to `b` takes the larger child at every step. */
  ghost predicate BestPath<T>(cmp: (T, T) -> int, s: seq<T>, a: nat, b: nat, n: nat)
    requires n <= |s|
    decreases b
  {
    a == b || (a < b < n && BestStep(cmp, s, b, n) && BestPath(cmp, s, a, Up(b), n))
  }

  ghost predicate BestStep<T>(cmp: (T, T) -> int, s: seq<T>, b: nat, n: nat)
    requires 0 < b < n <= |s|
  {
    Sibling(b) < n ==> Geq(cmp, s[b], s[Sibling(b)])
  }

  lemma {:induction false} BestAt<T>(cmp: (T, T) -> int, s: seq<T>, a: nat, b: nat, n: nat, t: nat)
    requires n <= |s| && BestPath(cmp, s, a, b, n) && a < t && Above(t, b)
    ensures t < n && BestStep(cmp, s, t, n)
    decreases b
  {
    AboveAtMost(t, b);
    if t < b { BestAt(cmp, s, a, Up(b), n, t); }
  }

  lemma {:induction false} BestIsAbove<T>(cmp: (T, T) -> int, s: seq<T>, a: nat, b: nat, n: nat)
    requires n <= |s| && BestPath(cmp, s, a, b, n)
    ensures Above(a, b)
    decreases b
  {
    if a < b { BestIsAbove(cmp, s, a, Up(b), n); }
  }

  /** `x` lies on the way from `b` to `c`, above `c`. */
  predicate OnWay(b: nat, x: nat, c: nat) {
    b <= x < c && Above(x, c)
  }

  /** Where the element at `x` comes from after the shift from `c` up to `b`. */
  function Source(b: nat, x: nat, c: nat): (y: nat)
    ensures b <= c ==> y <= x || y <= c
  {
    if x == c then b else if OnWay(b, x, c) then Toward(x, c) else x
  }

  ghost predicate Shifted<T>(s: seq<T>, t: seq<T>, b: nat, c: nat)
    requires b <= c < |s|
  {
    |t| == |s| && forall x :: 0 <= x < |s| ==> t[x] == s[Source(b, x, c)]
  }

  function Swapped<T>(s: seq<T>, i: nat, j: nat): seq<T>
    requires i < |s| && j < |s|
  {
    s[i := s[j]][j := s[i]]
  }

  /** One more swap with position `c` shifts one more step up. */
  lemma {:induction false} ShiftStep<T>(s: seq<T>, t: seq<T>, b: nat, c: nat)
    requires 0 < b <= c < |s| && Above(b, c) && Shifted(s, t, b, c)
    ensures Above(Up(b), c) && Shifted(s, Swapped(t, Up(b), c), Up(b), c)
  {
    var q := Up(b);
    TowardChild(b, c);
    forall x | 0 <= x < |s| ensures Swapped(t, q, c)[x] == s[Source(q, x, c)] {
      if OnWay(q, x, c) && x < b { NoneBetween(x, b, c); }
    }
  }

  /** The state in which the shift ends, and why the result is a heap. */
  ghost predicate Settles<T>(cmp: (T, T) -> int, s: seq<T>, a: nat, c: nat, n: nat)
    requires n <= |s|
  {
    && a <= c < n && HeapFrom(cmp, s, a + 1, n) && BestPath(cmp, s, a, c, n)
    && (c > a ==> Geq(cmp, s[c], s[a]))
    && (forall j: nat {:trigger Up(j)} :: 0 < j < n && Up(j) == c ==> Geq(cmp, s[a], s[j]))
  }

  lemma {:induction false} SettledAt<T>(cmp: (T, T) -> int, s: seq<T>, t: seq<T>, a: nat, c: nat, n: nat, j: nat)
    requires n <= |s| && Settles(cmp, s, a, c, n) && Shifted(s, t, a, c) && 0 < j < n && a <= Up(j)
    ensures Geq(cmp, t[Up(j)], t[j])
  {
    var q := Up(j);
    BestIsAbove(cmp, s, a, c, n);
    if q == c {
    } else if OnWay(a, q, c) {
      var u := Toward(q, c);
      if j == u {
        if j < c {
          var v := Toward(j, c);
          assert Up(v) == j;
        }
      } else {
        if Above(j, c) { TowardChild(j, c); }
        Siblings(u, j);
        BestAt(cmp, s, a, c, n, u);
      }
    } else {
      if Above(j, c) {
        AboveUp(j, c);
        AboveAtMost(j, c);
      }
    }
  }

  lemma {:induction false} Settled<T>(cmp: (T, T) -> int, s: seq<T>, t: seq<T>, a: nat, c: nat, n: nat)
    requires n <= |s| && Settles(cmp, s, a, c, n) && Shifted(s, t, a, c)
    ensures HeapFrom(cmp, t, a, n)
  {
    forall j: nat | 0 < j < n && a <= Up(j) ensures Geq(cmp, t[Up(j)], t[j]) {
      SettledAt(cmp, s, t, a, c, n, j);
    }
  }

  // ----- the code

  lemma {:induction false} SwapKeepsElements<T>(s: seq<T>, i: nat, j: nat)
    requires i < |s| && j < |s|
    ensures multiset(Swapped(s, i, j)) == multiset(s)
  {
    var t := s[i := s[j]];
    assert multiset(t) == multiset(s) - multiset{s[i]} + multiset{s[j]};
    assert t[j] == s[j];
    assert multiset(t[j := s[i]]) == multiset(t) - multiset{t[j]} + multiset{s[i]};
  }

  /** `do_swap` */
  method Swap<T>(arr: array<T>, i: nat, j: nat)
    requires i < arr.Length && j < arr.Length
    modifies arr
    ensures arr[..] == Swapped(old(arr[..]), i, j) && multiset(arr[..]) == multiset(old(arr[..]))
  {
    SwapKeepsElements(arr[..], i, j);
    arr[i], arr[j] := arr[j], arr[i];
  }

  /** The element sizes for which offsets and indices agree: the array is shorter than half the
      address space and the lowest bit of the size fits an `unsigned int`. */
  ghost predicate Addressable(w: nat, num: nat, size: nat) {
    w >= 32 && 0 < size && size % Pow2(32) != 0 && 2 * (num * size) < Pow2(w)
  }

  /** `parent`, from index to index through the offset. */
  method FindParent(w: nat, b: nat, size: nat, ghost num: nat) returns (p: nat)
    requires Addressable(w, num, size) && 0 < b < num
    ensures p == Up(b)
  {
    MulMono(b, num, size);
    MulMono(1, b, size);
    ParentRightIff(w, size, b);
    MultipleMod(Up(b), size, 0);
    p := Quot(Parent(w, b * size, LsBit(w, size), size), size);
  }

  lemma {:induction false} Descend<T(!new)>(cmp: (T, T) -> int, s: seq<T>, a: nat, b: nat, n: nat)
    requires Ordering(cmp) && n <= |s| && BestPath(cmp, s, a, b, n) && 2 * b + 1 < n
    ensures 2 * b + 2 < n ==>
              BestPath(cmp, s, a, if Geq(cmp, s[2 * b + 1], s[2 * b + 2]) then 2 * b + 1 else 2 * b + 2, n)
    ensures 2 * b + 2 == n ==> BestPath(cmp, s, a, 2 * b + 1, n)
  {
    BestIsAbove(cmp, s, a, b, n);
    AboveAtMost(a, b);
    var c, d := 2 * b + 1, 2 * b + 2;
    assert Up(c) == b && Up(d) == b && Sibling(c) == d && Sibling(d) == c;
    if d < n { assert Geq(cmp, s[c], s[d]) || Geq(cmp, s[d], s[c]); }
  }

  /** The path to a leaf, always to the larger child; a last leaf may have no sibling. */
  method FindLeaf<T(!new)>(arr: array<T>, a: nat, n: nat, cmp: (T, T) -> int) returns (b: nat)
    requires a < n <= arr.Length && Ordering(cmp)
    ensures BestPath(cmp, arr[..], a, b, n) && b < n && 2 * b + 1 >= n
  {
    b := a;
    while 2 * b + 2 < n
      invariant b < n && BestPath(cmp, arr[..], a, b, n)
      decreases n - b
    {
      var c, d := 2 * b + 1, 2 * b + 2;
      Descend(cmp, arr[..], a, b, n);
      b := if cmp(arr[c], arr[d]) >= 0 then c else d;
    }
    if 2 * b + 2 == n {
      Descend(cmp, arr[..], a, b, n);
      b := 2 * b + 1;
    }
  }

  /** The way back up to where the element at `a` belongs. */
  method FindPlace<T(!new)>(arr: array<T>, a: nat, n: nat, leaf: nat,
        cmp: (T, T) -> int, w: nat, size: nat) returns (b: nat)
    requires a <= leaf < n <= arr.Length && Ordering(cmp) && Addressable(w, arr.Length, size)
    requires HeapFrom(cmp, arr[..], a + 1, n) && BestPath(cmp, arr[..], a, leaf, n) && 2 * leaf + 1 >= n
    ensures Settles(cmp, arr[..], a, b, n)
  {
    b := leaf;
    while b != a && cmp(arr[a], arr[b]) >= 0
      invariant a <= b < n && BestPath(cmp, arr[..], a, b, n)
      invariant forall j: nat {:trigger Up(j)} :: 0 < j < n && Up(j) == b ==> Geq(cmp, arr[a], arr[j])
      decreases b
    {
      ChildrenBelow(cmp, arr[..], a, b, n);
      b := FindParent(w, b, size, arr.Length);
    }
    if b != a { assert Geq(cmp, arr[a], arr[b]) || Geq(cmp, arr[b], arr[a]); }
  }

  /** An element not less than the larger child is not less than its sibling either. */
  lemma {:induction false} ChildrenBelow<T(!new)>(cmp: (T, T) -> int, s: seq<T>, a: nat, b: nat, n: nat)
    requires Ordering(cmp) && a < b < n <= |s| && BestStep(cmp, s, b, n) && Geq(cmp, s[a], s[b])
    ensures forall j: nat {:trigger Up(j)} :: 0 < j < n && Up(j) == Up(b) ==> Geq(cmp, s[a], s[j])
  {
    forall j: nat | 0 < j < n && Up(j) == Up(b) ensures Geq(cmp, s[a], s[j]) {
      if j != b { Siblings(b, j); }
    }
  }

  /** Shifts the path from `a` to `c` up by one and puts the element of `a` at `c`. */
  method ShiftUp<T>(arr: array<T>, a: nat, c: nat, w: nat, size: nat)
    requires a <= c < arr.Length && Above(a, c) && Addressable(w, arr.Length, size)
    modifies arr
    ensures Shifted(old(arr[..]), arr[..], a, c) && multiset(arr[..]) == multiset(old(arr[..]))
  {
    var b := c;
    ghost var s := arr[..];
    while b != a
      invariant a <= b <= c && Above(b, c) && Above(a, b)
      invariant Shifted(s, arr[..], b, c) && multiset(arr[..]) == multiset(s)
      decreases b
    {
      ShiftStep(s, arr[..], b, c);
      AboveAtMost(a, Up(b));
      b := FindParent(w, b, size, arr.Length);
      Swap(arr, b, c);
    }
  }

  /** Every one of the first `n` elements of `t` is one of the first `n` of `s`. */
  ghost predicate Within<T>(s: seq<T>, t: seq<T>, n: nat)
    requires n <= |s| == |t|
  {
    && (forall x :: n <= x < |s| ==> t[x] == s[x])
    && (forall x :: 0 <= x < n ==> t[x] in s[..n])
  }

  lemma {:induction false} ShiftedWithin<T>(s: seq<T>, t: seq<T>, a: nat, c: nat, n: nat)
    requires a <= c < n <= |s| && Shifted(s, t, a, c)
    ensures Within(s, t, n)
  {
    forall x | 0 <= x < n ensures t[x] in s[..n] {
      assert s[..n][Source(a, x, c)] == t[x];
    }
  }

  /** Sifts the element at `a` into the heap behind it. */
  method Sift<T(!new)>(arr: array<T>, a: nat, n: nat, cmp: (T, T) -> int, w: nat, size: nat)
    requires a < n <= arr.Length && Ordering(cmp) && Addressable(w, arr.Length, size)
    requires HeapFrom(cmp, arr[..], a + 1, n)
    modifies arr
    ensures HeapFrom(cmp, arr[..], a, n) && Within(old(arr[..]), arr[..], n)
    ensures multiset(arr[..]) == multiset(old(arr[..]))
  {
    ghost var s := arr[..];
    var leaf := FindLeaf(arr, a, n, cmp);
    BestIsAbove(cmp, s, a, leaf, n);
    AboveAtMost(a, leaf);
    var c := FindPlace(arr, a, n, leaf, cmp, w, size);
    BestIsAbove(cmp, s, a, c, n);
    ShiftUp(arr, a, c, w, size);
    Settled(cmp, s, arr[..], a, c, n);
    ShiftedWithin(s, arr[..], a, c, n);
  }

  lemma {:induction false} TailWithin<T>(cmp: (T, T) -> int, s: seq<T>, t: seq<T>, n: nat)
    requires |s| == |t| && n <= |s| && Tail(cmp, s, n) && Within(s, t, n)
    ensures Tail(cmp, t, n)
  {
    forall x, y | 0 <= x < y < |t| && n <= y ensures Geq(cmp, t[y], t[x]) {
      if x < n {
        var z :| 0 <= z < n && s[..n][z] == t[x];
        assert s[z] == t[x];
      }
    }
  }

  /** Taking the root of a heap out to its end. */
  lemma {:induction false} ExtractRoot<T(!new)>(cmp: (T, T) -> int, s: seq<T>, n: nat)
    requires Ordering(cmp) && 0 < n < |s| && HeapFrom(cmp, s, 0, n + 1) && Tail(cmp, s, n + 1)
    ensures var t := Swapped(s, 0, n); HeapFrom(cmp, t, 1, n) && Tail(cmp, t, n)
  {
    var t := Swapped(s, 0, n);
    forall x, y | 0 <= x < y < |t| && n <= y ensures Geq(cmp, t[y], t[x]) {
      if y == n {
        RootIsLargest(cmp, s, n + 1, if x == 0 then n else x);
      } else {
        assert Geq(cmp, s[y], s[if x == 0 then n else if x == n then 0 else x]);
      }
    }
  }

  /** The second half of an array has no children. */
  lemma {:induction false} NothingToSift<T>(cmp: (T, T) -> int, s: seq<T>)
    ensures HeapFrom(cmp, s, |s| / 2, |s|)
  {
  }

  ghost predicate Sorted<T>(cmp: (T, T) -> int, s: seq<T>) {
    forall x, y :: 0 <= x < y < |s| ==> Geq(cmp, s[y], s[x])
  }

  /** `sort_r`: the array ends up sorted and holds the same elements. */
  method Sort<T(!new)>(arr: array<T>, cmp: (T, T) -> int, w: nat, size: nat)
    requires Ordering(cmp) && Addressable(w, arr.Length, size)
    modifies arr
    ensures Sorted(cmp, arr[..]) && multiset(arr[..]) == multiset(old(arr[..]))
  {
    var n: nat, a: nat := arr.Length, arr.Length / 2;
    if a == 0 {
      return;
    }
    NothingToSift(cmp, arr[..]);
    while n > 0
      invariant a <= n <= arr.Length
      invariant HeapFrom(cmp, arr[..], a, n) && Tail(cmp, arr[..], n)
      invariant multiset(arr[..]) == multiset(old(arr[..]))
      decreases n, a
    {
      if a > 0 {
        a := a - 1;
      } else {
        n := n - 1;
        if n == 0 {
          break;
        }
        ExtractRoot(cmp, arr[..], n);
        Swap(arr, 0, n);
      }
      ghost var s := arr[..];
      Sift(arr, a, n, cmp, w, size);
      TailWithin(cmp, s, arr[..], n);
    }
  }
}
