/** The three-way quicksort with an explicit stack, a heapsort fallback and an insertion sort for small segments. */
module Sorting {

  /** What a comparison function has to be: total, and consistent with itself. */
  ghost predicate TotalPreorder<T(!new)>(cmp: (T, T) -> int) {
    && (forall x, y :: cmp(x, y) < 0 <==> cmp(y, x) > 0)
    && (forall x, y, z :: cmp(x, y) <= 0 && cmp(y, z) <= 0 ==> cmp(x, z) <= 0)
  }

  /** The elements from lo to hi are in order. */
  ghost predicate SortedBy<T(!new)>(cmp: (T, T) -> int, s: seq<T>, lo: int, hi: int)
    requires 0 <= lo && hi <= |s|
  {
    forall i, j :: lo <= i < j < hi ==> cmp(s[i], s[j]) <= 0
  }

  // ---- permutations of a segment ----

  /** The elements from lo to hi have been permuted, the others have not been touched. */
  ghost predicate Shuffled<T(!new)>(now: seq<T>, was: seq<T>, lo: int, hi: int)
    requires 0 <= lo <= hi <= |now|
  {
    && |now| == |was|
    && multiset(now[lo..hi]) == multiset(was[lo..hi])
    && (forall i :: 0 <= i < lo || hi <= i < |now| ==> now[i] == was[i])
  }

  lemma ShuffledTrans<T(!new)>(a: seq<T>, b: seq<T>, c: seq<T>, lo: int, hi: int)
    requires 0 <= lo <= hi <= |a| == |b| && Shuffled(a, b, lo, hi) && Shuffled(b, c, lo, hi)
    ensures Shuffled(a, c, lo, hi)
  {
  }

  /** Every element of the segment was in the segment before. */
  lemma ShuffledFrom<T(!new)>(now: seq<T>, was: seq<T>, lo: int, hi: int, i: int) returns (k: int)
    requires 0 <= lo <= i < hi <= |now| && Shuffled(now, was, lo, hi)
    ensures lo <= k < hi && now[i] == was[k]
  {
    var x := now[i];
    assert x == now[lo..hi][i - lo];
    assert x in multiset(now[lo..hi]);
    assert x in was[lo..hi];
    var j :| 0 <= j < hi - lo && was[lo..hi][j] == x;
    k := lo + j;
  }

  /** A permutation of a part is one of the whole. */
  lemma ShuffledWiden<T(!new)>(now: seq<T>, was: seq<T>, lo: int, hi: int, lo1: int, hi1: int)
    requires 0 <= lo1 <= lo <= hi <= hi1 <= |now| && Shuffled(now, was, lo, hi)
    ensures Shuffled(now, was, lo1, hi1)
  {
    assert now[lo1..hi1] == now[lo1..lo] + now[lo..hi] + now[hi..hi1];
    assert was[lo1..hi1] == was[lo1..lo] + was[lo..hi] + was[hi..hi1];
    assert now[lo1..lo] == was[lo1..lo] && now[hi..hi1] == was[hi..hi1];
  }

  function Swapped<T>(s: seq<T>, i: int, j: int): (r: seq<T>)
    requires 0 <= i < |s| && 0 <= j < |s|
    ensures |r| == |s|
  {
    s[i := s[j]][j := s[i]]
  }

  lemma SwapShuffles<T(!new)>(s: seq<T>, i: int, j: int, lo: int, hi: int)
    requires 0 <= lo <= i < hi <= |s| && lo <= j < hi
    ensures Shuffled(Swapped(s, i, j), s, lo, hi)
  {
    var t, u := s[i := s[j]][j := s[i]], s[lo..hi];
    assert t[lo..hi] == u[i - lo := u[j - lo]][j - lo := u[i - lo]];
  }

  method Swap<T(!new)>(a: array<T>, i: int, j: int, lo: int, hi: int)
    requires 0 <= lo <= i < hi <= a.Length && lo <= j < hi
    modifies a
    ensures a[..] == Swapped(old(a[..]), i, j)
    ensures Shuffled(a[..], old(a[..]), lo, hi)
  {
    hide Shuffled;
    SwapShuffles(a[..], i, j, lo, hi);
    a[i], a[j] := a[j], a[i];
    assert a[..] == Swapped(old(a[..]), i, j);
  }

  // ---- insertion sort ----

  /** In order from lo to hi, except that the element at j may have to move down. */
  ghost predicate SortedBut<T(!new)>(cmp: (T, T) -> int, s: seq<T>, lo: int, hi: int, j: int)
    requires 0 <= lo && hi <= |s|
  {
    && (forall x, y :: lo <= x < y < hi && y != j && x != j ==> cmp(s[x], s[y]) <= 0)
    && (forall y :: lo <= y < hi && j < y && lo <= j ==> cmp(s[j], s[y]) <= 0)
  }

  method InsertionSort<T(!new)>(a: array<T>, lo: int, n: int, cmp: (T, T) -> int)
    requires TotalPreorder(cmp) && 0 <= lo && 0 <= n && lo + n <= a.Length
    modifies a
    ensures Shuffled(a[..], old(a[..]), lo, lo + n) && SortedBy(cmp, a[..], lo, lo + n)
  {
    hide Shuffled;
    var pi, top := lo + 1, lo + n;
    ghost var was := a[..];
    ShuffledRefl(was, lo, top);
    while pi < top
      invariant lo + 1 <= pi && (pi <= top || n == 0)
      invariant Shuffled(a[..], was, lo, top) && (n > 0 ==> SortedBy(cmp, a[..], lo, pi))
    {
      ghost var s := a[..];
      Insert(a, lo, pi, top, cmp);
      ShuffledTrans(a[..], s, was, lo, top);
      pi := pi + 1;
    }
  }

  lemma ShuffledRefl<T(!new)>(s: seq<T>, lo: int, hi: int)
    requires 0 <= lo <= hi <= |s|
    ensures Shuffled(s, s, lo, hi)
  {
  }

  lemma InsertStarts<T(!new)>(cmp: (T, T) -> int, s: seq<T>, lo: int, j: int)
    requires 0 <= lo <= j < |s| && SortedBy(cmp, s, lo, j)
    ensures SortedBut(cmp, s, lo, j + 1, j)
  {
  }

  lemma InsertStep<T(!new)>(cmp: (T, T) -> int, s: seq<T>, t: seq<T>, lo: int, hi: int, j: int)
    requires TotalPreorder(cmp) && 0 <= lo < j < hi <= |s| && SortedBut(cmp, s, lo, hi, j)
    requires cmp(s[j - 1], s[j]) > 0 && t == Swapped(s, j, j - 1)
    ensures SortedBut(cmp, t, lo, hi, j - 1)
  {
    forall y | j - 1 < y < hi
      ensures cmp(t[j - 1], t[y]) <= 0
    {
      if y > j {
        assert cmp(s[j], s[y]) <= 0;
      }
    }
    forall x, y | lo <= x < y < hi && y != j - 1 && x != j - 1
      ensures cmp(t[x], t[y]) <= 0
    {
      if y == j {
        assert cmp(s[x], s[j - 1]) <= 0;
      } else if x == j {
        assert cmp(s[j - 1], s[y]) <= 0;
      } else {
        assert cmp(s[x], s[y]) <= 0;
      }
    }
  }

  lemma InsertEnds<T(!new)>(cmp: (T, T) -> int, s: seq<T>, lo: int, hi: int, j: int)
    requires TotalPreorder(cmp) && 0 <= lo <= j < hi <= |s| && SortedBut(cmp, s, lo, hi, j)
    requires j == lo || cmp(s[j - 1], s[j]) <= 0
    ensures SortedBy(cmp, s, lo, hi)
  {
    forall x, y | lo <= x < y < hi
      ensures cmp(s[x], s[y]) <= 0
    {
      if y == j && x < j - 1 {
        assert cmp(s[x], s[j - 1]) <= 0;
        assert cmp(s[j - 1], s[j]) <= 0;
      }
    }
  }

  method Insert<T(!new)>(a: array<T>, lo: int, pi: int, top: int, cmp: (T, T) -> int)
    requires TotalPreorder(cmp) && 0 <= lo < pi < top <= a.Length && SortedBy(cmp, a[..], lo, pi)
    modifies a
    ensures Shuffled(a[..], old(a[..]), lo, top) && SortedBy(cmp, a[..], lo, pi + 1)
  {
    hide Shuffled, SortedBut, SortedBy, TotalPreorder, Swapped;
    var pj := pi;
    ghost var was := a[..];
    ShuffledRefl(was, lo, top);
    InsertStarts(cmp, was, lo, pi);
    while pj > lo && cmp(a[pj - 1], a[pj]) > 0
      invariant lo <= pj <= pi
      invariant Shuffled(a[..], was, lo, top) && SortedBut(cmp, a[..], lo, pi + 1, pj)
    {
      ghost var s := a[..];
      Swap(a, pj, pj - 1, lo, top);
      ShuffledTrans(a[..], s, was, lo, top);
      InsertStep(cmp, s, a[..], lo, pi + 1, pj);
      pj := pj - 1;
    }
    InsertEnds(cmp, a[..], lo, pi + 1, pj);
  }

  // ---- heapsort ----

  /** Neither child of q is above it. */
  ghost predicate AboveChildren<T(!new)>(cmp: (T, T) -> int, s: seq<T>, lo: int, n: int, q: int, x: T)
    requires 0 <= lo && lo + n <= |s|
  {
    && (0 <= 2 * q + 1 < n ==> cmp(s[lo + 2 * q + 1], x) <= 0)
    && (0 <= 2 * q + 2 < n ==> cmp(s[lo + 2 * q + 2], x) <= 0)
  }

  /** The element at q is above the children of r. */
  ghost predicate Covers<T(!new)>(cmp: (T, T) -> int, s: seq<T>, lo: int, n: int, q: int, r: int)
    requires 0 <= lo && lo + n <= |s| && 0 <= q < n
  {
    AboveChildren(cmp, s, lo, n, r, s[lo + q])
  }

  /** A heap from r0 on, except below r: the children of r are not above the parent of r either. */
  ghost predicate HeapBut<T(!new)>(cmp: (T, T) -> int, s: seq<T>, lo: int, n: int, r0: int, r: int)
    requires 0 <= lo && lo + n <= |s|
  {
    && (forall q :: r0 <= q < n && q >= 0 && q != r ==> Covers(cmp, s, lo, n, q, q))
    && (forall q :: 0 <= r0 <= q < n && (r == 2 * q + 1 || r == 2 * q + 2) ==> Covers(cmp, s, lo, n, q, r))
  }

  ghost predicate Heap<T(!new)>(cmp: (T, T) -> int, s: seq<T>, lo: int, n: int, r0: int)
    requires 0 <= lo && lo + n <= |s|
  {
    forall q :: r0 <= q < n && q >= 0 ==> Covers(cmp, s, lo, n, q, q)
  }

  /** The child that is compared: the right one unless it is missing or below the left one. */
  ghost predicate LargerChild<T(!new)>(cmp: (T, T) -> int, s: seq<T>, lo: int, n: int, r: int, c: int)
    requires 0 <= lo && lo + n <= |s| && 0 <= r
  {
    && (c == 2 * r + 1 || c == 2 * r + 2) && c < n
    && AboveChildren(cmp, s, lo, n, r, s[lo + c])
  }

  lemma SiftStops<T(!new)>(cmp: (T, T) -> int, s: seq<T>, lo: int, n: int, r0: int, r: int, c: int)
    requires TotalPreorder(cmp) && 0 <= lo && lo + n <= |s| && 0 <= r0 <= r < n && HeapBut(cmp, s, lo, n, r0, r)
    requires LargerChild(cmp, s, lo, n, r, c) && cmp(s[lo + r], s[lo + c]) > 0
    ensures Heap(cmp, s, lo, n, r0)
  {
    assert cmp(s[lo + c], s[lo + r]) <= 0;
    assert Covers(cmp, s, lo, n, r, r);
  }

  lemma SiftLeaf<T(!new)>(cmp: (T, T) -> int, s: seq<T>, lo: int, n: int, r0: int, r: int)
    requires 0 <= lo && lo + n <= |s| && 0 <= r0 <= r < n && HeapBut(cmp, s, lo, n, r0, r) && 2 * r + 1 >= n
    ensures Heap(cmp, s, lo, n, r0)
  {
    assert Covers(cmp, s, lo, n, r, r);
  }

  /** The exchange of r with its child c, seen from r, from the parent of r and from anywhere else. */
  lemma SiftNode<T(!new)>(cmp: (T, T) -> int, s: seq<T>, t: seq<T>, lo: int, n: int, r: int, c: int, q: int)
    requires TotalPreorder(cmp) && 0 <= lo && lo + n <= |s| && 0 <= r < n && 0 <= q < n && q != c
    requires LargerChild(cmp, s, lo, n, r, c) && cmp(s[lo + r], s[lo + c]) <= 0
    requires t == Swapped(s, lo + r, lo + c)
    requires q != r ==> Covers(cmp, s, lo, n, q, q)
    requires r == 2 * q + 1 || r == 2 * q + 2 ==> Covers(cmp, s, lo, n, q, r)
    ensures Covers(cmp, t, lo, n, q, q)
  {
    hide TotalPreorder;
  }

  lemma SiftStep<T(!new)>(cmp: (T, T) -> int, s: seq<T>, t: seq<T>, lo: int, n: int, r0: int, r: int, c: int)
    requires TotalPreorder(cmp) && 0 <= lo && lo + n <= |s| && 0 <= r0 <= r < n && HeapBut(cmp, s, lo, n, r0, r)
    requires LargerChild(cmp, s, lo, n, r, c) && cmp(s[lo + r], s[lo + c]) <= 0
    requires t == Swapped(s, lo + r, lo + c)
    ensures HeapBut(cmp, t, lo, n, r0, c)
  {
    hide TotalPreorder, AboveChildren, Swapped, LargerChild, Covers;
    ChildRange(cmp, s, lo, n, r, c);
    forall q | r0 <= q < n && q != c
      ensures Covers(cmp, t, lo, n, q, q)
    {
      SiftNode(cmp, s, t, lo, n, r, c, q);
    }
    forall q | r0 <= q < n && (c == 2 * q + 1 || c == 2 * q + 2)
      ensures Covers(cmp, t, lo, n, q, c)
    {
      SiftChild(cmp, s, t, lo, n, r, c, q);
    }
  }

  lemma ChildRange<T(!new)>(cmp: (T, T) -> int, s: seq<T>, lo: int, n: int, r: int, c: int)
    requires 0 <= lo && lo + n <= |s| && 0 <= r && LargerChild(cmp, s, lo, n, r, c)
    ensures r < c < n
  {
  }

  lemma SiftChild<T(!new)>(cmp: (T, T) -> int, s: seq<T>, t: seq<T>, lo: int, n: int, r: int, c: int, q: int)
    requires 0 <= lo && lo + n <= |s| && 0 <= r < n && 0 <= q < n && LargerChild(cmp, s, lo, n, r, c)
    requires t == Swapped(s, lo + r, lo + c) && Covers(cmp, s, lo, n, c, c) && (c == 2 * q + 1 || c == 2 * q + 2)
    ensures Covers(cmp, t, lo, n, q, c)
  {
  }

  /** Move the element at r down to its place. */
  method SiftDown<T(!new)>(a: array<T>, lo: int, n: int, r0: int, cmp: (T, T) -> int)
    requires TotalPreorder(cmp) && 0 <= lo && lo + n <= a.Length && 0 <= r0 < n
    requires HeapBut(cmp, a[..], lo, n, r0, r0)
    modifies a
    ensures Shuffled(a[..], old(a[..]), lo, lo + n) && Heap(cmp, a[..], lo, n, r0)
  {
    hide Shuffled, HeapBut, Heap, TotalPreorder, Swapped, LargerChild;
    var r := r0;
    ghost var was := a[..];
    ShuffledRefl(was, lo, lo + n);
    while 2 * r + 1 < n
      invariant r0 <= r < n
      invariant Shuffled(a[..], was, lo, lo + n) && HeapBut(cmp, a[..], lo, n, r0, r)
      decreases n - r
    {
      var c := PickChild(a, lo, n, r, cmp);
      if cmp(a[lo + r], a[lo + c]) > 0 {
        SiftStops(cmp, a[..], lo, n, r0, r, c);
        return;
      }
      ghost var s := a[..];
      Swap(a, lo + r, lo + c, lo, lo + n);
      ShuffledTrans(a[..], s, was, lo, lo + n);
      SiftStep(cmp, s, a[..], lo, n, r0, r, c);
      r := c;
    }
    SiftLeaf(cmp, a[..], lo, n, r0, r);
  }

  method PickChild<T(!new)>(a: array<T>, lo: int, n: int, r: int, cmp: (T, T) -> int) returns (c: int)
    requires TotalPreorder(cmp) && 0 <= lo && lo + n <= a.Length && 0 <= r && 2 * r + 1 < n
    ensures r < c < n && LargerChild(cmp, a[..], lo, n, r, c)
  {
    c := 2 * r + 1;
    assert cmp(a[lo + c], a[lo + c]) <= 0;
    if c < n - 1 && cmp(a[lo + c], a[lo + c + 1]) <= 0 {
      c := c + 1;
      assert cmp(a[lo + c], a[lo + c]) <= 0;
    }
  }

  lemma {:induction false} HeapTop<T(!new)>(cmp: (T, T) -> int, s: seq<T>, lo: int, n: int, k: int)
    requires TotalPreorder(cmp) && 0 <= lo && lo + n <= |s| && 0 <= k < n && Heap(cmp, s, lo, n, 0)
    ensures cmp(s[lo + k], s[lo]) <= 0
    decreases k
  {
    if k > 0 {
      var q := (k - 1) / 2;
      HeapTop(cmp, s, lo, n, q);
      assert Covers(cmp, s, lo, n, q, q);
    } else {
      assert cmp(s[lo], s[lo]) <= 0;
    }
  }

  /** The elements from i on are in place. */
  ghost predicate InPlace<T(!new)>(cmp: (T, T) -> int, s: seq<T>, lo: int, i: int, hi: int)
    requires 0 <= lo <= i <= hi <= |s|
  {
    forall x, y :: lo <= x < y < hi && i <= y ==> cmp(s[x], s[y]) <= 0
  }

  lemma InPlaceKept<T(!new)>(cmp: (T, T) -> int, s: seq<T>, t: seq<T>, lo: int, i: int, hi: int)
    requires 0 <= lo <= i <= hi <= |s| == |t| && InPlace(cmp, s, lo, i, hi) && Shuffled(t, s, lo, i)
    ensures InPlace(cmp, t, lo, i, hi)
  {
    forall x, y | lo <= x < y < hi && i <= y
      ensures cmp(t[x], t[y]) <= 0
    {
      if x < i {
        var k := ShuffledFrom(t, s, lo, i, x);
        assert cmp(s[k], s[y]) <= 0;
      } else {
        assert cmp(s[x], s[y]) <= 0;
      }
    }
  }

  /** The top of the heap goes to the end. */
  lemma TopInPlace<T(!new)>(cmp: (T, T) -> int, s: seq<T>, t: seq<T>, lo: int, m: int, hi: int)
    requires TotalPreorder(cmp) && 0 <= lo && 0 < m && lo + m < hi <= |s| && t == Swapped(s, lo, lo + m)
    requires InPlace(cmp, s, lo, lo + m + 1, hi) && Heap(cmp, s, lo, m + 1, 0)
    ensures InPlace(cmp, t, lo, lo + m, hi)
  {
    hide Heap;
    forall x, y | lo <= x < y < hi && lo + m <= y
      ensures cmp(t[x], t[y]) <= 0
    {
      if y == lo + m {
        var k := if x == lo then m else x - lo;
        HeapTop(cmp, s, lo, m + 1, k);
      } else {
        var x1 := if x == lo then lo + m else if x == lo + m then lo else x;
        assert cmp(s[x1], s[y]) <= 0;
      }
    }
  }

  lemma TopLeavesHeap<T(!new)>(cmp: (T, T) -> int, s: seq<T>, t: seq<T>, lo: int, m: int)
    requires 0 <= lo && 0 < m && lo + m < |s| && t == Swapped(s, lo, lo + m) && Heap(cmp, s, lo, m + 1, 0)
    ensures HeapBut(cmp, t, lo, m, 0, 0)
  {
    forall q | 0 <= q < m && q != 0
      ensures Covers(cmp, t, lo, m, q, q)
    {
      assert Covers(cmp, s, lo, m + 1, q, q);
    }
  }

  /** Move the top of the heap of m + 1 elements behind it. */
  method ExtractTop<T(!new)>(a: array<T>, lo: int, m: int, hi: int, cmp: (T, T) -> int)
    requires TotalPreorder(cmp) && 0 <= lo && 0 < m && lo + m < hi <= a.Length
    requires InPlace(cmp, a[..], lo, lo + m + 1, hi) && Heap(cmp, a[..], lo, m + 1, 0)
    modifies a
    ensures Shuffled(a[..], old(a[..]), lo, hi)
    ensures InPlace(cmp, a[..], lo, lo + m, hi) && Heap(cmp, a[..], lo, m, 0)
  {
    hide Shuffled, HeapBut, Heap, TotalPreorder, Swapped, InPlace;
    ghost var s := a[..];
    Swap(a, lo, lo + m, lo, hi);
    ghost var t := a[..];
    TopInPlace(cmp, s, t, lo, m, hi);
    TopLeavesHeap(cmp, s, t, lo, m);
    SiftDown(a, lo, m, 0, cmp);
    InPlaceKept(cmp, t, a[..], lo, lo + m, hi);
    ShuffledWiden(a[..], t, lo, lo + m, lo, hi);
    ShuffledTrans(a[..], t, s, lo, hi);
  }

  method HeapSort<T(!new)>(a: array<T>, lo: int, n: int, cmp: (T, T) -> int)
    requires TotalPreorder(cmp) && 0 <= lo && 0 <= n && lo + n <= a.Length
    modifies a
    ensures Shuffled(a[..], old(a[..]), lo, lo + n) && SortedBy(cmp, a[..], lo, lo + n)
  {
    hide Shuffled, Heap, TotalPreorder, InPlace;
    ghost var was := a[..];
    ShuffledRefl(was, lo, lo + n);
    if n > 1 {
      BuildHeap(a, lo, n, cmp);
      NothingInPlace(cmp, a[..], lo, lo + n);
      var i := n - 1;
      while i > 0
        invariant 0 <= i < n
        invariant Shuffled(a[..], was, lo, lo + n)
        invariant InPlace(cmp, a[..], lo, lo + i + 1, lo + n) && Heap(cmp, a[..], lo, i + 1, 0)
        decreases i
      {
        ghost var s := a[..];
        ExtractTop(a, lo, i, lo + n, cmp);
        ShuffledTrans(a[..], s, was, lo, lo + n);
        i := i - 1;
      }
      AllInPlace(cmp, a[..], lo, lo + n);
    }
  }

  lemma NothingInPlace<T(!new)>(cmp: (T, T) -> int, s: seq<T>, lo: int, hi: int)
    requires 0 <= lo <= hi <= |s|
    ensures InPlace(cmp, s, lo, hi, hi)
  {
  }

  lemma AllInPlace<T(!new)>(cmp: (T, T) -> int, s: seq<T>, lo: int, hi: int)
    requires 0 <= lo < hi <= |s| && InPlace(cmp, s, lo, lo + 1, hi)
    ensures SortedBy(cmp, s, lo, hi)
  {
  }

  method BuildHeap<T(!new)>(a: array<T>, lo: int, n: int, cmp: (T, T) -> int)
    requires TotalPreorder(cmp) && 0 <= lo && 1 < n && lo + n <= a.Length
    modifies a
    ensures Shuffled(a[..], old(a[..]), lo, lo + n) && Heap(cmp, a[..], lo, n, 0)
  {
    hide Shuffled, HeapBut, Heap, TotalPreorder;
    ghost var was := a[..];
    ShuffledRefl(was, lo, lo + n);
    var i := n / 2;
    LeavesAreHeaps(cmp, a[..], lo, n, i);
    while i > 0
      invariant 0 <= i <= n / 2
      invariant Shuffled(a[..], was, lo, lo + n) && Heap(cmp, a[..], lo, n, i)
    {
      i := i - 1;
      ghost var s := a[..];
      OneMoreRoot(cmp, s, lo, n, i);
      SiftDown(a, lo, n, i, cmp);
      ShuffledTrans(a[..], s, was, lo, lo + n);
    }
  }

  lemma LeavesAreHeaps<T(!new)>(cmp: (T, T) -> int, s: seq<T>, lo: int, n: int, i: int)
    requires 0 <= lo && lo + n <= |s| && 0 < n && i == n / 2
    ensures Heap(cmp, s, lo, n, i)
  {
  }

  lemma OneMoreRoot<T(!new)>(cmp: (T, T) -> int, s: seq<T>, lo: int, n: int, i: int)
    requires 0 <= lo && lo + n <= |s| && 0 <= i < n && Heap(cmp, s, lo, n, i + 1)
    ensures HeapBut(cmp, s, lo, n, i, i)
  {
  }

  // ---- partition ----

  /** v lies between x and y. */
  ghost predicate Between<T(!new)>(cmp: (T, T) -> int, v: T, x: T, y: T) {
    (cmp(x, v) <= 0 && cmp(v, y) <= 0) || (cmp(y, v) <= 0 && cmp(v, x) <= 0)
  }

  /** The position, among three, of the median. */
  method Med3<T(!new)>(a: array<T>, x: int, y: int, z: int, cmp: (T, T) -> int) returns (m: int)
    requires TotalPreorder(cmp) && 0 <= x < a.Length && 0 <= y < a.Length && 0 <= z < a.Length
    ensures (m == x && Between(cmp, a[x], a[y], a[z])) || (m == y && Between(cmp, a[y], a[x], a[z]))
         || (m == z && Between(cmp, a[z], a[x], a[y]))
  {
    if cmp(a[x], a[y]) < 0 {
      m := if cmp(a[y], a[z]) < 0 then y else if cmp(a[x], a[z]) < 0 then z else x;
    } else {
      m := if cmp(a[y], a[z]) > 0 then y else if cmp(a[x], a[z]) < 0 then x else z;
    }
  }

  /** Every element from lo to hi compares with the pivot as `sign` says: 1 below, 0 equal, -1 above it. */
  ghost predicate AllAre<T(!new)>(cmp: (T, T) -> int, p: T, s: seq<T>, lo: int, hi: int, sign: int)
    requires 0 <= lo && hi <= |s|
  {
    forall k :: lo <= k < hi ==> Is(cmp, p, s[k], sign)
  }

  ghost predicate Is<T(!new)>(cmp: (T, T) -> int, p: T, x: T, sign: int) {
    var c := cmp(p, x);
    if sign > 0 then c > 0 else if sign < 0 then c < 0 else c == 0
  }

  /** Equal up to plt, below up to pi, then unknown; above from pj, equal again from pgt. */
  ghost predicate Parts<T(!new)>(cmp: (T, T) -> int, p: T, s: seq<T>, lo: int, plt: int, pi: int, pj: int, pgt: int,
                                 top: int)
  {
    && 0 <= lo < plt <= pi && pj <= pgt <= top <= |s| && 0 <= pj && pi <= |s|
    && s[lo] == p
    && AllAre(cmp, p, s, lo, plt, 0) && AllAre(cmp, p, s, plt, pi, 1)
    && AllAre(cmp, p, s, pj, pgt, -1) && AllAre(cmp, p, s, pgt, top, 0)
  }

  lemma PartsStart<T(!new)>(cmp: (T, T) -> int, s: seq<T>, lo: int, top: int)
    requires TotalPreorder(cmp) && 0 <= lo < top <= |s|
    ensures Parts(cmp, s[lo], s, lo, lo + 1, lo + 1, top, top, top)
  {
    assert cmp(s[lo], s[lo]) == 0;
  }

  /** An element equal to the pivot joins the equal ones on the left. */
  lemma PartsEqualLeft<T(!new)>(cmp: (T, T) -> int, p: T, s: seq<T>, lo: int, plt: int, pi: int, pj: int, pgt: int, top: int)
    requires Parts(cmp, p, s, lo, plt, pi, pj, pgt, top) && pi < pj && cmp(p, s[pi]) == 0
    ensures Parts(cmp, p, Swapped(s, plt, pi), lo, plt + 1, pi + 1, pj, pgt, top)
  {
    assert Is(cmp, p, s[pi], 0);
    assert plt < pi ==> Is(cmp, p, s[plt], 1);
  }

  lemma PartsBelow<T(!new)>(cmp: (T, T) -> int, p: T, s: seq<T>, lo: int, plt: int, pi: int, pj: int, pgt: int, top: int)
    requires Parts(cmp, p, s, lo, plt, pi, pj, pgt, top) && pi < pj && cmp(p, s[pi]) > 0
    ensures Parts(cmp, p, s, lo, plt, pi + 1, pj, pgt, top)
  {
    assert Is(cmp, p, s[pi], 1);
  }

  /** An element equal to the pivot joins the equal ones on the right. */
  lemma PartsEqualRight<T(!new)>(cmp: (T, T) -> int, p: T, s: seq<T>, lo: int, plt: int, pi: int, pj: int, pgt: int, top: int)
    requires Parts(cmp, p, s, lo, plt, pi, pj + 1, pgt, top) && pi < pj && cmp(p, s[pj]) == 0
    ensures Parts(cmp, p, Swapped(s, pgt - 1, pj), lo, plt, pi, pj, pgt - 1, top)
  {
    assert Is(cmp, p, s[pj], 0);
    assert pj < pgt - 1 ==> Is(cmp, p, s[pgt - 1], -1);
  }

  lemma PartsAbove<T(!new)>(cmp: (T, T) -> int, p: T, s: seq<T>, lo: int, plt: int, pi: int, pj: int, pgt: int, top: int)
    requires Parts(cmp, p, s, lo, plt, pi, pj + 1, pgt, top) && pi <= pj && cmp(p, s[pj]) < 0
    ensures Parts(cmp, p, s, lo, plt, pi, pj, pgt, top)
  {
    assert Is(cmp, p, s[pj], -1);
  }

  /** An element above the pivot and one below it change places. */
  lemma PartsExchange<T(!new)>(cmp: (T, T) -> int, p: T, s: seq<T>, lo: int, plt: int, pi: int, pj: int, pgt: int, top: int)
    requires Parts(cmp, p, s, lo, plt, pi, pj + 1, pgt, top) && pi < pj && cmp(p, s[pi]) < 0 && cmp(p, s[pj]) > 0
    ensures Parts(cmp, p, Swapped(s, pi, pj), lo, plt, pi + 1, pj, pgt, top)
  {
    assert Is(cmp, p, s[pi], -1) && Is(cmp, p, s[pj], 1);
  }

  method ScanUp<T(!new)>(a: array<T>, lo: int, plt0: int, pi0: int, pj: int, pgt: int, top: int, cmp: (T, T) -> int)
    returns (plt: int, pi: int)
    requires top <= a.Length && pi0 <= pj && lo < a.Length && 0 <= lo
    requires Parts(cmp, a[lo], a[..], lo, plt0, pi0, pj, pgt, top)
    modifies a
    ensures a[lo] == old(a[lo]) && pi0 <= pi <= pj && (pi < pj ==> cmp(a[lo], a[pi]) < 0)
    ensures Shuffled(a[..], old(a[..]), lo, top)
    ensures Parts(cmp, a[lo], a[..], lo, plt, pi, pj, pgt, top)
  {
    hide Shuffled, Swapped, AllAre;
    plt, pi := plt0, pi0;
    ghost var was := a[..];
    ShuffledRefl(was, lo, top);
    while pi < pj && cmp(a[lo], a[pi]) >= 0
      invariant pi0 <= pi <= pj && a[lo] == was[lo]
      invariant Shuffled(a[..], was, lo, top)
      invariant Parts(cmp, a[lo], a[..], lo, plt, pi, pj, pgt, top)
    {
      ghost var s := a[..];
      if cmp(a[lo], a[pi]) == 0 {
        PartsEqualLeft(cmp, a[lo], s, lo, plt, pi, pj, pgt, top);
        Swap(a, plt, pi, lo, top);
        ShuffledTrans(a[..], s, was, lo, top);
        plt := plt + 1;
      } else {
        PartsBelow(cmp, a[lo], s, lo, plt, pi, pj, pgt, top);
      }
      pi := pi + 1;
    }
  }

  method ScanDown<T(!new)>(a: array<T>, lo: int, plt: int, pi: int, pj0: int, pgt0: int, top: int, cmp: (T, T) -> int)
    returns (pj: int, pgt: int)
    requires top <= a.Length && pi <= pj0 && lo < a.Length && 0 <= lo
    requires Parts(cmp, a[lo], a[..], lo, plt, pi, pj0, pgt0, top) && (pi < pj0 ==> cmp(a[lo], a[pi]) < 0)
    modifies a
    ensures a[lo] == old(a[lo]) && pi - 1 <= pj < pj0
    ensures Shuffled(a[..], old(a[..]), lo, top)
    ensures Parts(cmp, a[lo], a[..], lo, plt, pi, pj + 1, pgt, top)
    ensures pi <= pj ==> cmp(a[lo], a[pi]) < 0
    ensures pi < pj ==> cmp(a[lo], a[pj]) > 0
  {
    hide Shuffled, AllAre, Swapped;
    pj, pgt := pj0 - 1, pgt0;
    ghost var was := a[..];
    ShuffledRefl(was, lo, top);
    while pi < pj && cmp(a[lo], a[pj]) <= 0
      invariant pi - 1 <= pj < pj0 && a[lo] == was[lo] && (pi <= pj ==> cmp(a[lo], a[pi]) < 0)
      invariant Shuffled(a[..], was, lo, top)
      invariant Parts(cmp, a[lo], a[..], lo, plt, pi, pj + 1, pgt, top)
      decreases pj
    {
      ghost var s := a[..];
      if cmp(a[lo], a[pj]) == 0 {
        PartsEqualRight(cmp, a[lo], s, lo, plt, pi, pj, pgt, top);
        pgt := pgt - 1;
        SwapKeeps(s, pgt, pj, pi);
        Swap(a, pgt, pj, lo, top);
        ShuffledTrans(a[..], s, was, lo, top);
      } else {
        PartsAbove(cmp, a[lo], s, lo, plt, pi, pj, pgt, top);
      }
      pj := pj - 1;
    }
  }

  lemma SwapKeeps<T>(s: seq<T>, i: int, j: int, k: int)
    requires 0 <= i < |s| && 0 <= j < |s| && 0 <= k < |s| && k != i && k != j
    ensures Swapped(s, i, j)[k] == s[k]
  {
  }

  /** Scan from both ends until they meet. */
  method Scan<T(!new)>(a: array<T>, lo: int, top: int, cmp: (T, T) -> int) returns (plt: int, pi: int, pgt: int)
    requires TotalPreorder(cmp) && 0 <= lo < top <= a.Length
    modifies a
    ensures a[lo] == old(a[lo]) && pi <= pgt
    ensures Shuffled(a[..], old(a[..]), lo, top)
    ensures Parts(cmp, a[lo], a[..], lo, plt, pi, pi, pgt, top)
  {
    hide Shuffled, AllAre, Swapped, TotalPreorder;
    ghost var was := a[..];
    ShuffledRefl(was, lo, top);
    PartsStart(cmp, was, lo, top);
    plt, pi, pgt := lo + 1, lo + 1, top;
    var pj := top;
    while true
      invariant pi <= pj && a[lo] == was[lo]
      invariant Shuffled(a[..], was, lo, top)
      invariant Parts(cmp, a[lo], a[..], lo, plt, pi, pj, pgt, top)
      decreases pj - pi
    {
      ghost var s := a[..];
      plt, pi := ScanUp(a, lo, plt, pi, pj, pgt, top, cmp);
      ShuffledTrans(a[..], s, was, lo, top);
      s := a[..];
      pj, pgt := ScanDown(a, lo, plt, pi, pj, pgt, top, cmp);
      ShuffledTrans(a[..], s, was, lo, top);
      if pi >= pj {
        if pi == pj {
          PartsAbove(cmp, a[lo], a[..], lo, plt, pi, pj, pgt, top);
        }
        break;
      }
      s := a[..];
      PartsExchange(cmp, a[lo], s, lo, plt, pi, pj, pgt, top);
      SwapKeeps(s, pi, pj, lo);
      Swap(a, pi, pj, lo, top);
      ShuffledTrans(a[..], s, was, lo, top);
      pi := pi + 1;
    }
  }

  /** Two blocks of the same length have changed places. */
  ghost predicate BlocksSwapped<T(!new)>(t: seq<T>, s: seq<T>, x: int, y: int, len: int)
    requires 0 <= x && 0 <= len && x + len <= y && y + len <= |s| == |t|
  {
    && (forall k :: x <= k < x + len ==> t[k] == s[k - x + y])
    && (forall k :: y <= k < y + len ==> t[k] == s[k - y + x])
    && (forall k :: 0 <= k < |s| && !(x <= k < x + len) && !(y <= k < y + len) ==> t[k] == s[k])
  }

  method SwapBlock<T(!new)>(a: array<T>, x: int, y: int, len: int, lo: int, top: int)
    requires 0 <= lo <= x && 0 <= len && x + len <= y && y + len <= top <= a.Length
    modifies a
    ensures BlocksSwapped(a[..], old(a[..]), x, y, len)
    ensures Shuffled(a[..], old(a[..]), lo, top)
  {
    hide Shuffled;
    ghost var was := a[..];
    ShuffledRefl(was, lo, top);
    var k := 0;
    while k < len
      invariant 0 <= k <= len
      invariant BlocksSwapped(a[..], was, x, y, k)
      invariant Shuffled(a[..], was, lo, top)
    {
      ghost var s := a[..];
      Swap(a, x + k, y + k, lo, top);
      ShuffledTrans(a[..], s, was, lo, top);
      k := k + 1;
    }
  }

  /** The equal elements move from the left end to the middle; swapping the shorter of the two runs is enough. */
  lemma MoveFromLeft<T(!new)>(cmp: (T, T) -> int, p: T, s: seq<T>, t: seq<T>, lo: int, plt: int, pi: int, span: int)
    requires 0 <= lo <= plt <= pi <= |s| == |t|
    requires AllAre(cmp, p, s, lo, plt, 0) && AllAre(cmp, p, s, plt, pi, 1)
    requires span == (if plt - lo > pi - plt then pi - plt else plt - lo)
    requires BlocksSwapped(t, s, lo, pi - span, span)
    ensures AllAre(cmp, p, t, lo, lo + (pi - plt), 1) && AllAre(cmp, p, t, lo + (pi - plt), pi, 0)
  {
    hide Is;
  }

  lemma MoveFromRight<T(!new)>(cmp: (T, T) -> int, p: T, s: seq<T>, t: seq<T>, pi: int, pgt: int, top: int, span: int)
    requires 0 <= pi <= pgt <= top <= |s| == |t|
    requires AllAre(cmp, p, s, pi, pgt, -1) && AllAre(cmp, p, s, pgt, top, 0)
    requires span == (if top - pgt > pgt - pi then pgt - pi else top - pgt)
    requires BlocksSwapped(t, s, pi, top - span, span)
    ensures AllAre(cmp, p, t, pi, top - (pgt - pi), 0) && AllAre(cmp, p, t, top - (pgt - pi), top, -1)
  {
    hide Is;
  }

  lemma AllAreKept<T(!new)>(cmp: (T, T) -> int, p: T, s: seq<T>, t: seq<T>, lo: int, hi: int, sign: int)
    requires 0 <= lo && hi <= |s| == |t| && AllAre(cmp, p, s, lo, hi, sign)
    requires forall k :: lo <= k < hi ==> t[k] == s[k]
    ensures AllAre(cmp, p, t, lo, hi, sign)
  {
    hide Is;
  }

  /** Below, equal and above the pivot. */
  ghost predicate ThreeParts<T(!new)>(cmp: (T, T) -> int, p: T, s: seq<T>, lo: int, lt: int, gt: int, top: int)
  {
    && 0 <= lo <= lt < gt <= top <= |s|
    && AllAre(cmp, p, s, lo, lt, 1) && AllAre(cmp, p, s, lt, gt, 0) && AllAre(cmp, p, s, gt, top, -1)
  }

  /** After the first exchange: below, equal, above, equal. */
  ghost predicate FourParts<T(!new)>(cmp: (T, T) -> int, p: T, s: seq<T>, lo: int, lt: int, pi: int, pgt: int, top: int)
  {
    && 0 <= lo <= lt < pi <= pgt <= top <= |s|
    && AllAre(cmp, p, s, lo, lt, 1) && AllAre(cmp, p, s, lt, pi, 0)
    && AllAre(cmp, p, s, pi, pgt, -1) && AllAre(cmp, p, s, pgt, top, 0)
  }

  lemma LeftMoved<T(!new)>(cmp: (T, T) -> int, p: T, s: seq<T>, t: seq<T>, lo: int, plt: int, pi: int, pgt: int, top: int,
                           span: int)
    requires Parts(cmp, p, s, lo, plt, pi, pi, pgt, top) && |t| == |s|
    requires span == (if plt - lo > pi - plt then pi - plt else plt - lo)
    requires BlocksSwapped(t, s, lo, pi - span, span)
    ensures FourParts(cmp, p, t, lo, lo + (pi - plt), pi, pgt, top)
  {
    hide AllAre;
    MoveFromLeft(cmp, p, s, t, lo, plt, pi, span);
    AllAreKept(cmp, p, s, t, pi, pgt, -1);
    AllAreKept(cmp, p, s, t, pgt, top, 0);
  }

  lemma RightMoved<T(!new)>(cmp: (T, T) -> int, p: T, s: seq<T>, t: seq<T>, lo: int, lt: int, pi: int, pgt: int, top: int,
                            span: int)
    requires FourParts(cmp, p, s, lo, lt, pi, pgt, top) && |t| == |s|
    requires span == (if top - pgt > pgt - pi then pgt - pi else top - pgt)
    requires BlocksSwapped(t, s, pi, top - span, span)
    ensures ThreeParts(cmp, p, t, lo, lt, top - (pgt - pi), top)
  {
    hide AllAre;
    MoveFromRight(cmp, p, s, t, pi, pgt, top, span);
    AllAreKept(cmp, p, s, t, lo, lt, 1);
    AllAreKept(cmp, p, s, t, lt, pi, 0);
    Joined(cmp, p, t, lt, pi, top - (pgt - pi), 0);
  }

  method MoveEqual<T(!new)>(a: array<T>, lo: int, plt: int, pi: int, pgt: int, top: int, cmp: (T, T) -> int, ghost p: T)
    returns (lt: int, gt: int)
    requires 0 <= lo < plt <= pi <= pgt <= top <= a.Length && Parts(cmp, p, a[..], lo, plt, pi, pi, pgt, top)
    modifies a
    ensures Shuffled(a[..], old(a[..]), lo, top) && ThreeParts(cmp, p, a[..], lo, lt, gt, top)
  {
    hide Shuffled, Parts, FourParts, ThreeParts, BlocksSwapped;
    ghost var s := a[..];
    var span := if plt - lo > pi - plt then pi - plt else plt - lo;
    SwapBlock(a, lo, pi - span, span, lo, top);
    ghost var t := a[..];
    LeftMoved(cmp, p, s, t, lo, plt, pi, pgt, top, span);
    lt := lo + (pi - plt);
    span := if top - pgt > pgt - pi then pgt - pi else top - pgt;
    SwapBlock(a, pi, top - span, span, lo, top);
    ShuffledTrans(a[..], t, s, lo, top);
    RightMoved(cmp, p, t, a[..], lo, lt, pi, pgt, top, span);
    gt := top - (pgt - pi);
  }

  lemma Joined<T(!new)>(cmp: (T, T) -> int, p: T, s: seq<T>, lo: int, mid: int, hi: int, sign: int)
    requires 0 <= lo <= mid <= hi <= |s| && AllAre(cmp, p, s, lo, mid, sign) && AllAre(cmp, p, s, mid, hi, sign)
    ensures AllAre(cmp, p, s, lo, hi, sign)
  {
    hide Is;
  }

  /** Move the median of three elements to the front. */
  method PivotFirst<T(!new)>(a: array<T>, lo: int, n: int, cmp: (T, T) -> int)
    requires TotalPreorder(cmp) && 0 <= lo && 6 < n && lo + n <= a.Length
    modifies a
    ensures Shuffled(a[..], old(a[..]), lo, lo + n)
  {
    hide Shuffled, TotalPreorder, Between, Swapped;
    var m4 := n / 4;
    var m := Med3(a, lo + m4, lo + 2 * m4, lo + 3 * m4, cmp);
    Swap(a, lo, m, lo, lo + n);
  }

  /** Split the segment around the median of three of its elements. */
  method Partition<T(!new)>(a: array<T>, lo: int, n: int, cmp: (T, T) -> int) returns (lt: int, gt: int, ghost p: T)
    requires TotalPreorder(cmp) && 0 <= lo && 6 < n && lo + n <= a.Length
    modifies a
    ensures Shuffled(a[..], old(a[..]), lo, lo + n) && ThreeParts(cmp, p, a[..], lo, lt, gt, lo + n)
  {
    hide Shuffled, TotalPreorder, ThreeParts, Parts;
    ghost var was := a[..];
    PivotFirst(a, lo, n, cmp);
    ghost var s := a[..];
    var plt, pi, pgt := Scan(a, lo, lo + n, cmp);
    ShuffledTrans(a[..], s, was, lo, lo + n);
    s := a[..];
    p := a[lo];
    PartsRange(cmp, p, s, lo, plt, pi, pgt, lo + n);
    lt, gt := MoveEqual(a, lo, plt, pi, pgt, lo + n, cmp, p);
    ShuffledTrans(a[..], s, was, lo, lo + n);
  }

  lemma PartsRange<T(!new)>(cmp: (T, T) -> int, p: T, s: seq<T>, lo: int, plt: int, pi: int, pgt: int, top: int)
    requires Parts(cmp, p, s, lo, plt, pi, pi, pgt, top)
    ensures lo < plt <= pi <= pgt <= top
  {
  }

  // ---- the stack of pending segments ----

  datatype Segment = Segment(base: int, count: int, depth: int) {
    ghost predicate Has(i: int) {
      base <= i < base + count
    }
  }

  ghost predicate SameSegment(segs: seq<Segment>, i: int, j: int) {
    exists k :: 0 <= k < |segs| && segs[k].Has(i) && segs[k].Has(j)
  }

  /** Any two elements are in order unless a pending segment holds both. */
  ghost predicate Pending<T(!new)>(cmp: (T, T) -> int, s: seq<T>, segs: seq<Segment>) {
    forall i, j :: 0 <= i < j < |s| ==> SameSegment(segs, i, j) || cmp(s[i], s[j]) <= 0
  }

  ghost predicate Disjoint(segs: seq<Segment>) {
    forall k, l, i :: 0 <= k < l < |segs| ==> !(segs[k].Has(i) && segs[l].Has(i))
  }

  ghost predicate Inside(segs: seq<Segment>, n: int) {
    forall k :: 0 <= k < |segs| ==> 0 <= segs[k].base && 0 <= segs[k].count && segs[k].base + segs[k].count <= n
  }

  lemma SameSegmentAt(segs: seq<Segment>, k: int, i: int, j: int)
    requires 0 <= k < |segs| && segs[k].Has(i) && segs[k].Has(j)
    ensures SameSegment(segs, i, j)
  {
  }

  /** Permuting the last segment keeps the order between the segments. */
  lemma PendingKept<T(!new)>(cmp: (T, T) -> int, s: seq<T>, t: seq<T>, segs: seq<Segment>, g: Segment)
    requires Inside(segs + [g], |s|) && Disjoint(segs + [g]) && Pending(cmp, s, segs + [g])
    requires 0 <= g.base <= g.base + g.count <= |t| == |s| && Shuffled(t, s, g.base, g.base + g.count)
    ensures Pending(cmp, t, segs + [g])
  {
    hide Shuffled, Disjoint, Inside;
    var all := segs + [g];
    assert all[|segs|] == g;
    forall i, j | 0 <= i < j < |t|
      ensures SameSegment(all, i, j) || cmp(t[i], t[j]) <= 0
    {
      if g.Has(i) && g.Has(j) {
        SameSegmentAt(all, |segs|, i, j);
      } else if g.Has(i) {
        PendingFirst(cmp, s, t, all, g, i, j);
      } else if g.Has(j) {
        PendingSecond(cmp, s, t, all, g, i, j);
      } else {
        OutsideKept(t, s, g, i);
        OutsideKept(t, s, g, j);
      }
    }
  }

  lemma OutsideKept<T(!new)>(t: seq<T>, s: seq<T>, g: Segment, i: int)
    requires 0 <= g.base <= g.base + g.count <= |t| && Shuffled(t, s, g.base, g.base + g.count)
    requires 0 <= i < |t| && !g.Has(i)
    ensures |t| == |s| && t[i] == s[i]
  {
  }

  /** Segments that share an element are the same. */
  lemma DisjointOnly(all: seq<Segment>, k: int, l: int, i: int)
    requires Disjoint(all) && 0 <= k < |all| && 0 <= l < |all| && all[k].Has(i) && all[l].Has(i)
    ensures k == l
  {
  }

  lemma NotTogether(all: seq<Segment>, g: Segment, x: int, y: int)
    requires Disjoint(all) && all != [] && all[|all| - 1] == g && g.Has(x) && !g.Has(y)
    ensures !SameSegment(all, x, y) && !SameSegment(all, y, x)
  {
    hide Disjoint;
    if SameSegment(all, x, y) || SameSegment(all, y, x) {
      var k :| 0 <= k < |all| && all[k].Has(x) && all[k].Has(y);
      DisjointOnly(all, k, |all| - 1, x);
    }
  }

  lemma PendingFirst<T(!new)>(cmp: (T, T) -> int, s: seq<T>, t: seq<T>, all: seq<Segment>, g: Segment, i: int, j: int)
    requires all != [] && all[|all| - 1] == g && Disjoint(all) && Pending(cmp, s, all)
    requires 0 <= g.base <= g.base + g.count <= |t| == |s| && Shuffled(t, s, g.base, g.base + g.count)
    requires 0 <= i < j < |t| && g.Has(i) && !g.Has(j)
    ensures cmp(t[i], t[j]) <= 0
  {
    hide Shuffled, Disjoint, SameSegment;
    var k := ShuffledFrom(t, s, g.base, g.base + g.count, i);
    OutsideKept(t, s, g, j);
    NotTogether(all, g, k, j);
  }

  lemma PendingSecond<T(!new)>(cmp: (T, T) -> int, s: seq<T>, t: seq<T>, all: seq<Segment>, g: Segment, i: int, j: int)
    requires all != [] && all[|all| - 1] == g && Disjoint(all) && Pending(cmp, s, all)
    requires 0 <= g.base <= g.base + g.count <= |t| == |s| && Shuffled(t, s, g.base, g.base + g.count)
    requires 0 <= i < j < |t| && !g.Has(i) && g.Has(j)
    ensures cmp(t[i], t[j]) <= 0
  {
    hide Shuffled, Disjoint, SameSegment;
    var k := ShuffledFrom(t, s, g.base, g.base + g.count, j);
    OutsideKept(t, s, g, i);
    NotTogether(all, g, k, i);
  }

  /** A segment in order is no longer pending. */
  lemma PendingDone<T(!new)>(cmp: (T, T) -> int, s: seq<T>, segs: seq<Segment>, g: Segment)
    requires Inside(segs + [g], |s|) && Pending(cmp, s, segs + [g])
    requires (segs + [g])[|segs|] == g && SortedBy(cmp, s, g.base, g.base + g.count)
    ensures Pending(cmp, s, segs)
  {
    var all := segs + [g];
    forall i, j | 0 <= i < j < |s|
      ensures SameSegment(segs, i, j) || cmp(s[i], s[j]) <= 0
    {
      if SameSegment(all, i, j) {
        var k :| 0 <= k < |all| && all[k].Has(i) && all[k].Has(j);
        if k < |segs| {
          assert segs[k] == all[k];
          SameSegmentAt(segs, k, i, j);
        }
      }
    }
  }

  /** After a partition the two outer parts are pending. */
  lemma PendingSplit<T(!new)>(cmp: (T, T) -> int, p: T, s: seq<T>, segs: seq<Segment>, g: Segment, x: Segment, y: Segment,
                              lt: int, gt: int)
    requires TotalPreorder(cmp) && Inside(segs + [g], |s|) && Pending(cmp, s, segs + [g])
    requires ThreeParts(cmp, p, s, g.base, lt, gt, g.base + g.count)
    requires {(x.base, x.count), (y.base, y.count)} == {(g.base, lt - g.base), (gt, g.base + g.count - gt)}
    ensures Pending(cmp, s, segs + [x] + [y])
  {
    var all, now := segs + [g], segs + [x] + [y];
    forall i, j | 0 <= i < j < |s|
      ensures SameSegment(now, i, j) || cmp(s[i], s[j]) <= 0
    {
      if SameSegment(all, i, j) {
        var k :| 0 <= k < |all| && all[k].Has(i) && all[k].Has(j);
        if k < |segs| {
          assert now[k] == all[k];
          SameSegmentAt(now, k, i, j);
        } else {
          PartsInOrder(cmp, p, s, segs, g, x, y, lt, gt, i, j);
        }
      }
    }
  }

  lemma PartsInOrder<T(!new)>(cmp: (T, T) -> int, p: T, s: seq<T>, segs: seq<Segment>, g: Segment, x: Segment, y: Segment,
                              lt: int, gt: int, i: int, j: int)
    requires TotalPreorder(cmp) && ThreeParts(cmp, p, s, g.base, lt, gt, g.base + g.count)
    requires {(x.base, x.count), (y.base, y.count)} == {(g.base, lt - g.base), (gt, g.base + g.count - gt)}
    requires g.Has(i) && g.Has(j) && i < j
    ensures SameSegment(segs + [x] + [y], i, j) || cmp(s[i], s[j]) <= 0
  {
    var now := segs + [x] + [y];
    assert now[|segs|] == x && now[|segs| + 1] == y;
    var left, right := (g.base, lt - g.base), (gt, g.base + g.count - gt);
    assert left in {(x.base, x.count), (y.base, y.count)} && right in {(x.base, x.count), (y.base, y.count)};
    if j < lt {
      SameSegmentAt(now, if left == (x.base, x.count) then |segs| else |segs| + 1, i, j);
    } else if i >= gt {
      SameSegmentAt(now, if right == (x.base, x.count) then |segs| else |segs| + 1, i, j);
    } else {
      assert Is(cmp, p, s[i], if i < lt then 1 else 0);
      assert Is(cmp, p, s[j], if j < gt then 0 else -1);
      assert cmp(s[i], p) <= 0 && cmp(p, s[j]) <= 0;
    }
  }

  // ---- the sort ----

  const MAX_DEPTH := 50

  /** The depths on the stack increase from the bottom to the top: no more segments than the depth are pending. */
  ghost predicate Stack(segs: seq<Segment>, depth: int) {
    && |segs| <= depth
    && (forall k :: 0 <= k < |segs| ==> k < segs[k].depth <= depth)
    && (forall k, l :: 0 <= k < l < |segs| ==> segs[k].depth < segs[l].depth)
  }

  lemma StackPush(segs: seq<Segment>, depth: int, x: Segment)
    requires Stack(segs, depth) && x.depth == depth + 1
    ensures Stack(segs + [x], depth + 1)
  {
  }

  lemma StackPop(segs: seq<Segment>, depth: int)
    requires Stack(segs, depth) && segs != []
    ensures Stack(segs[..|segs| - 1], segs[|segs| - 1].depth) && segs[|segs| - 1].depth <= depth
  {
  }

  lemma StackAbove(segs: seq<Segment>, depth: int, d: int)
    requires Stack(segs, depth) && depth <= d
    ensures Stack(segs, d)
  {
  }

  /** The state of the sort: what is pending, and that nothing else is left to do. */
  ghost predicate Work<T(!new)>(cmp: (T, T) -> int, s: seq<T>, segs: seq<Segment>) {
    Inside(segs, |s|) && Disjoint(segs) && Pending(cmp, s, segs)
  }

  ghost function Weight(segs: seq<Segment>): (r: int) {
    if segs == [] then 0 else Weight(segs[..|segs| - 1]) + segs[|segs| - 1].count + 1
  }

  lemma WeightSnoc(segs: seq<Segment>, g: Segment)
    ensures Weight(segs + [g]) == Weight(segs) + g.count + 1
  {
    assert (segs + [g])[..|segs|] == segs;
  }

  lemma {:induction false} WeightNat(segs: seq<Segment>, n: int)
    requires Inside(segs, n)
    ensures Weight(segs) >= 0
    decreases |segs|
  {
    if segs != [] {
      WeightNat(segs[..|segs| - 1], n);
    }
  }

  lemma WorkStarts<T(!new)>(cmp: (T, T) -> int, s: seq<T>, g: Segment)
    requires g.base == 0 && g.count == |s|
    ensures Work(cmp, s, [g])
  {
    forall i, j | 0 <= i < j < |s|
      ensures SameSegment([g], i, j)
    {
      SameSegmentAt([g], 0, i, j);
    }
  }

  lemma WorkTop<T(!new)>(cmp: (T, T) -> int, s: seq<T>, segs: seq<Segment>, g: Segment)
    requires Work(cmp, s, segs + [g])
    ensures 0 <= g.base <= g.base + g.count <= |s|
  {
    hide Disjoint, Pending;
    assert (segs + [g])[|segs|] == g;
  }

  /** Sorting the top segment removes it. */
  lemma WorkDone<T(!new)>(cmp: (T, T) -> int, s: seq<T>, t: seq<T>, segs: seq<Segment>, g: Segment)
    requires Work(cmp, s, segs + [g]) && 0 <= g.base <= g.base + g.count <= |t| == |s|
    requires Shuffled(t, s, g.base, g.base + g.count) && SortedBy(cmp, t, g.base, g.base + g.count)
    ensures Work(cmp, t, segs)
  {
    hide Pending, Shuffled, SortedBy;
    var all := segs + [g];
    PendingKept(cmp, s, t, segs, g);
    assert all[|segs|] == g;
    assert forall k :: 0 <= k < |segs| ==> segs[k] == all[k];
    PendingDone(cmp, t, segs, g);
  }

  /** Partitioning the top segment replaces it by its two outer parts. */
  lemma WorkSplit<T(!new)>(cmp: (T, T) -> int, p: T, s: seq<T>, t: seq<T>, segs: seq<Segment>, g: Segment, x: Segment,
                           y: Segment, lt: int, gt: int)
    requires TotalPreorder(cmp) && Work(cmp, s, segs + [g]) && 0 <= g.base <= g.base + g.count <= |t| == |s|
    requires Shuffled(t, s, g.base, g.base + g.count) && ThreeParts(cmp, p, t, g.base, lt, gt, g.base + g.count)
    requires {(x.base, x.count), (y.base, y.count)} == {(g.base, lt - g.base), (gt, g.base + g.count - gt)}
    ensures Work(cmp, t, segs + [x] + [y])
  {
    hide Pending, Shuffled, TotalPreorder, AllAre;
    PendingKept(cmp, s, t, segs, g);
    PendingSplit(cmp, p, t, segs, g, x, y, lt, gt);
    SplitInside(segs, g, x, y, lt, gt, |s|);
  }

  lemma SplitInside(segs: seq<Segment>, g: Segment, x: Segment, y: Segment, lt: int, gt: int, n: int)
    requires Inside(segs + [g], n) && Disjoint(segs + [g]) && g.base <= lt < gt <= g.base + g.count
    requires {(x.base, x.count), (y.base, y.count)} == {(g.base, lt - g.base), (gt, g.base + g.count - gt)}
    ensures Inside(segs + [x] + [y], n) && Disjoint(segs + [x] + [y])
  {
    var all, now := segs + [g], segs + [x] + [y];
    assert all[|segs|] == g && forall k :: 0 <= k < |segs| ==> all[k] == segs[k] == now[k];
    assert (x.base, x.count) in {(g.base, lt - g.base), (gt, g.base + g.count - gt)};
    assert (y.base, y.count) in {(g.base, lt - g.base), (gt, g.base + g.count - gt)};
    assert (g.base, lt - g.base) in {(x.base, x.count), (y.base, y.count)};
    forall k, l, i | 0 <= k < l < |now|
      ensures !(now[k].Has(i) && now[l].Has(i))
    {
      if k < |segs| <= l {
        assert !(all[k].Has(i) && all[|segs|].Has(i));
      } else if l < |segs| {
        assert !(all[k].Has(i) && all[l].Has(i));
      }
    }
  }

  /** Partition the segment until it is small, leaving the larger parts on the stack, then sort what is left. */
  method SortSegment<T(!new)>(a: array<T>, segs0: seq<Segment>, g: Segment, cmp: (T, T) -> int)
    returns (segs: seq<Segment>, ghost peak: nat)
    requires TotalPreorder(cmp) && Work(cmp, a[..], segs0 + [g]) && Stack(segs0, g.depth) && g.depth <= MAX_DEPTH
    modifies a
    ensures Shuffled(a[..], old(a[..]), 0, a.Length)
    ensures Work(cmp, a[..], segs) && Stack(segs, MAX_DEPTH) && Weight(segs) < Weight(segs0 + [g])
    ensures |segs0| <= peak <= MAX_DEPTH && |segs| <= peak
  {
    hide Shuffled, Work, Stack, TotalPreorder, SortedBy, Weight;
    ghost var was := a[..];
    ShuffledRefl(was, 0, a.Length);
    segs := segs0;
    StackSize(segs, g.depth);
    peak := |segs|;
    var cur := g;
    WorkTop(cmp, a[..], segs, cur);
    while cur.count > 6
      invariant Work(cmp, a[..], segs + [cur]) && Stack(segs, cur.depth) && cur.depth <= MAX_DEPTH
      invariant 0 <= cur.base <= cur.base + cur.count <= a.Length
      invariant Shuffled(a[..], was, 0, a.Length) && Weight(segs + [cur]) <= Weight(segs0 + [g])
      invariant |segs0| <= peak <= MAX_DEPTH && |segs| <= peak
      decreases cur.count
    {
      if cur.depth + 1 > MAX_DEPTH {
        FinishSegment(a, segs, cur, cmp, true, was);
        return;
      }
      segs, cur := SplitSegment(a, segs, cur, cmp, was);
      peak := if |segs| > peak then |segs| else peak;
    }
    FinishSegment(a, segs, cur, cmp, false, was);
  }

  /** Sort a segment on the spot. */
  method FinishSegment<T(!new)>(a: array<T>, segs: seq<Segment>, g: Segment, cmp: (T, T) -> int, heap: bool,
                                ghost was: seq<T>)
    requires TotalPreorder(cmp) && Work(cmp, a[..], segs + [g]) && Stack(segs, g.depth) && g.depth <= MAX_DEPTH
    requires 0 <= g.base <= g.base + g.count <= a.Length == |was| && Shuffled(a[..], was, 0, a.Length)
    modifies a
    ensures Work(cmp, a[..], segs) && Shuffled(a[..], was, 0, a.Length) && Stack(segs, MAX_DEPTH)
    ensures Weight(segs) < Weight(segs + [g])
  {
    hide Shuffled, Work, Stack, TotalPreorder, SortedBy, Weight;
    ghost var s := a[..];
    if heap {
      HeapSort(a, g.base, g.count, cmp);
    } else {
      InsertionSort(a, g.base, g.count, cmp);
    }
    WorkDone(cmp, s, a[..], segs, g);
    ShuffledWiden(a[..], s, g.base, g.base + g.count, 0, a.Length);
    ShuffledTrans(a[..], s, was, 0, a.Length);
    StackAbove(segs, g.depth, MAX_DEPTH);
    WeightSnoc(segs, g);
  }

  /** Partition a segment; the larger part goes on the stack. */
  method SplitSegment<T(!new)>(a: array<T>, segs0: seq<Segment>, g: Segment, cmp: (T, T) -> int, ghost was: seq<T>)
    returns (segs: seq<Segment>, cur: Segment)
    requires TotalPreorder(cmp) && Work(cmp, a[..], segs0 + [g]) && Stack(segs0, g.depth) && g.depth < MAX_DEPTH
    requires 0 <= g.base && 6 < g.count && g.base + g.count <= a.Length == |was| && Shuffled(a[..], was, 0, a.Length)
    modifies a
    ensures Work(cmp, a[..], segs + [cur]) && Stack(segs, cur.depth) && cur.depth <= MAX_DEPTH && |segs| <= MAX_DEPTH
    ensures 0 <= cur.base <= cur.base + cur.count <= a.Length && cur.count < g.count
    ensures Shuffled(a[..], was, 0, a.Length) && Weight(segs + [cur]) <= Weight(segs0 + [g])
  {
    hide Shuffled, Work, Stack, TotalPreorder, AllAre, Weight;
    ghost var s := a[..];
    var n, depth := g.count, g.depth + 1;
    var lt, gt, p := Partition(a, g.base, n, cmp);
    ShuffledWiden(a[..], s, g.base, g.base + n, 0, a.Length);
    ShuffledTrans(a[..], s, was, 0, a.Length);
    var left := Segment(g.base, lt - g.base, depth);
    var right := Segment(gt, g.base + n - gt, depth);
    var x;
    if left.count > right.count {
      x, cur := left, right;
    } else {
      x, cur := right, left;
    }
    WorkSplit(cmp, p, s, a[..], segs0, g, x, cur, lt, gt);
    segs := segs0 + [x];
    StackPush(segs0, g.depth, x);
    StackSize(segs, depth);
    WeightSnoc(segs0, g);
    WeightSnoc(segs0, x);
    WeightSnoc(segs, cur);
  }

  lemma StackSize(segs: seq<Segment>, depth: int)
    requires Stack(segs, depth)
    ensures |segs| <= depth
  {
  }

  lemma WorkEnds<T(!new)>(cmp: (T, T) -> int, s: seq<T>)
    requires Work(cmp, s, [])
    ensures SortedBy(cmp, s, 0, |s|)
  {
  }

  lemma PopTop(segs: seq<Segment>)
    requires segs != []
    ensures segs == segs[..|segs| - 1] + [segs[|segs| - 1]]
  {
  }

  /** A sorted permutation, for every length and every total preorder; `peak`, the largest number of segments pending
      at a time, is at most 50. */
  method RqSort<T(!new)>(a: array<T>, cmp: (T, T) -> int) returns (ghost peak: nat)
    requires TotalPreorder(cmp)
    modifies a
    ensures SortedBy(cmp, a[..], 0, a.Length) && multiset(a[..]) == multiset(old(a[..]))
    ensures peak <= 50
  {
    hide Shuffled, Work, Stack, TotalPreorder, Weight;
    peak := 0;
    if a.Length < 2 {
      return;
    }
    ghost var was := a[..];
    ShuffledRefl(was, 0, a.Length);
    var first := Segment(0, a.Length, 0);
    WorkStarts(cmp, a[..], first);
    StackNone(0);
    assert [] + [first] == [first];
    var segs;
    segs, peak := SortSegmentAt(a, [], first, cmp, was);
    peak := if peak < 1 then 1 else peak;
    while segs != []
      invariant Work(cmp, a[..], segs) && Stack(segs, MAX_DEPTH) && |segs| <= peak <= MAX_DEPTH
      invariant Shuffled(a[..], was, 0, a.Length)
      decreases WeightOf(cmp, a[..], segs)
    {
      var g := segs[|segs| - 1];
      PopTop(segs);
      StackPop(segs, MAX_DEPTH);
      ghost var high;
      segs, high := SortSegmentAt(a, segs[..|segs| - 1], g, cmp, was);
      peak := if high > peak then high else peak;
    }
    WorkEnds(cmp, a[..]);
    ShuffledAll(a[..], was);
  }

  ghost function WeightOf<T(!new)>(cmp: (T, T) -> int, s: seq<T>, segs: seq<Segment>): (r: nat)
    requires Work(cmp, s, segs)
    ensures r == Weight(segs)
  {
    WeightNat(segs, |s|);
    Weight(segs)
  }

  lemma StackNone(depth: int)
    requires depth >= 0
    ensures Stack([], depth)
  {
  }

  lemma ShuffledAll<T(!new)>(t: seq<T>, s: seq<T>)
    requires |t| == |s| && Shuffled(t, s, 0, |t|)
    ensures multiset(t) == multiset(s)
  {
    assert t[0..|t|] == t && s[0..|t|] == s;
  }

  method SortSegmentAt<T(!new)>(a: array<T>, segs0: seq<Segment>, g: Segment, cmp: (T, T) -> int, ghost was: seq<T>)
    returns (segs: seq<Segment>, ghost peak: nat)
    requires TotalPreorder(cmp) && Work(cmp, a[..], segs0 + [g]) && Stack(segs0, g.depth) && g.depth <= MAX_DEPTH
    requires a.Length == |was| && Shuffled(a[..], was, 0, a.Length)
    modifies a
    ensures Shuffled(a[..], was, 0, a.Length)
    ensures Work(cmp, a[..], segs) && Stack(segs, MAX_DEPTH) && Weight(segs) < Weight(segs0 + [g])
    ensures |segs0| <= peak <= MAX_DEPTH && |segs| <= peak
  {
    hide Shuffled, Work, Stack, TotalPreorder, Weight;
    ghost var s := a[..];
    segs, peak := SortSegment(a, segs0, g, cmp);
    ShuffledTrans(a[..], s, was, 0, a.Length);
  }
}
