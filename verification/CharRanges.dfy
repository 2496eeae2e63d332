/** The algebra of character sets on sorted lists of boundary points. */
module CharRanges {
  import opened Bytes
  import opened CharSets

  // ---- membership by counting boundary points ----

  /** The number of points that are not above c. */
  function Count(s: seq<u32>, c: int): (r: nat)
    ensures r <= |s|
  {
    if s == [] then 0 else Count(s[..|s| - 1], c) + if s[|s| - 1] <= c then 1 else 0
  }

  predicate Odd(s: seq<u32>, c: int) {
    Count(s, c) % 2 == 1
  }

  ghost predicate Sorted(s: seq<u32>) {
    forall i, j :: 0 <= i < j < |s| ==> s[i] <= s[j]
  }

  /** Points in order and in pairs: intervals may be empty and may touch. */
  ghost predicate Intervals(s: seq<u32>) {
    |s| % 2 == 0 && Sorted(s)
  }

  lemma {:induction false} CountConcat(a: seq<u32>, b: seq<u32>, c: int)
    ensures Count(a + b, c) == Count(a, c) + Count(b, c)
    decreases |b|
  {
    if b == [] {
      assert a + b == a;
    } else {
      assert (a + b)[..|a + b| - 1] == a + b[..|b| - 1];
      CountConcat(a, b[..|b| - 1], c);
    }
  }

  lemma {:induction false} CountAll(s: seq<u32>, c: int)
    requires forall i :: 0 <= i < |s| ==> s[i] <= c
    ensures Count(s, c) == |s|
    decreases |s|
  {
    if s != [] {
      CountAll(s[..|s| - 1], c);
    }
  }

  lemma {:induction false} CountNone(s: seq<u32>, c: int)
    requires forall i :: 0 <= i < |s| ==> s[i] > c
    ensures Count(s, c) == 0
    decreases |s|
  {
    if s != [] {
      CountNone(s[..|s| - 1], c);
    }
  }

  /** In a sorted list the points not above c come first. */
  lemma CountIs(s: seq<u32>, c: int, k: nat)
    requires Sorted(s) && k <= |s|
    requires k > 0 ==> s[k - 1] <= c
    requires k < |s| ==> c < s[k]
    ensures Count(s, c) == k
  {
    hide Count, Sorted;
    SortedSplits(s, c, k);
    assert s == s[..k] + s[k..];
    CountConcat(s[..k], s[k..], c);
    CountAll(s[..k], c);
    CountNone(s[k..], c);
  }

  lemma SortedSplits(s: seq<u32>, c: int, k: nat)
    requires Sorted(s) && k <= |s|
    requires k > 0 ==> s[k - 1] <= c
    requires k < |s| ==> c < s[k]
    ensures forall i :: 0 <= i < k ==> s[i] <= c
    ensures forall i :: k <= i < |s| ==> c < s[i]
  {
    forall i | 0 <= i < k
      ensures s[i] <= c
    {
      assert i < k - 1 ==> s[i] <= s[k - 1];
    }
    forall i | k <= i < |s|
      ensures c < s[i]
    {
      assert k < i ==> s[k] <= s[i];
    }
  }

  lemma {:induction false} CountSplits(s: seq<u32>, c: int)
    requires Sorted(s)
    ensures var k := Count(s, c);
      (k > 0 ==> s[k - 1] <= c) && (k < |s| ==> c < s[k])
    decreases |s|
  {
    if s != [] {
      var n := |s| - 1;
      if s[n] <= c {
        CountIs(s, c, |s|);
      } else {
        CountSplits(s[..n], c);
      }
    }
  }

  /** A character is in the set exactly when an odd number of points is not above it. */
  lemma ContainsIsOdd(s: seq<u32>, c: int)
    requires Intervals(s)
    ensures Contains(s, c) <==> Odd(s, c)
  {
    CountSplits(s, c);
    var k := Count(s, c);
    if k % 2 == 1 {
      var i := (k - 1) / 2;
      assert s[2 * i] <= c < s[2 * i + 1];
    }
    if Contains(s, c) {
      var i :| 0 <= i < |s| / 2 && s[2 * i] <= c < s[2 * i + 1];
      CountIs(s, c, 2 * i + 1);
    }
  }

  // ---- the normal form ----

  lemma NormalIsIntervals(s: seq<u32>)
    requires Normal(s)
    ensures Intervals(s)
  {
  }

  /** Where two strictly increasing lists first differ, they count differently. */
  lemma DifferAt(a: seq<u32>, b: seq<u32>, i: nat)
    requires StrictlyIncreasing(a) && StrictlyIncreasing(b) && i <= |a| && i < |b| && a[..i] == b[..i]
    requires i < |a| ==> b[i] < a[i]
    ensures Odd(a, b[i]) != Odd(b, b[i])
  {
    var c := b[i];
    assert i > 0 ==> a[i - 1] == a[..i][i - 1] == b[..i][i - 1] == b[i - 1];
    CountIs(a, c, i);
    CountIs(b, c, i + 1);
  }

  /** Equal sets have equal lists: the normal form is unique. */
  lemma {:induction false} NormalUnique(a: seq<u32>, b: seq<u32>, i: nat)
    requires Normal(a) && Normal(b) && forall c :: 0 <= c <= UINT32_MAX ==> (Contains(a, c) <==> Contains(b, c))
    requires i <= |a| && i <= |b| && a[..i] == b[..i]
    ensures a == b
    decreases |a| - i
  {
    if i == |a| == |b| {
      assert a == a[..i] && b == b[..i];
    } else if i < |b| && (i == |a| || b[i] < a[i]) {
      DifferAt(a, b, i);
      ContainsIsOdd(a, b[i]);
      ContainsIsOdd(b, b[i]);
    } else if i < |a| && (i == |b| || a[i] < b[i]) {
      DifferAt(b, a, i);
      ContainsIsOdd(a, a[i]);
      ContainsIsOdd(b, a[i]);
    } else {
      assert a[..i + 1] == a[..i] + [a[i]] && b[..i + 1] == b[..i] + [b[i]];
      NormalUnique(a, b, i + 1);
    }
  }

  /** `t` is the complement of `s` in [0, 2^32 - 1). */
  ghost predicate Complement(t: seq<u32>, s: seq<u32>) {
    forall c :: Contains(t, c) <==> 0 <= c < UINT32_MAX && !Contains(s, c)
  }

  /** Inverting twice gives back the same list. */
  lemma DoubleInversion(s: seq<u32>, t: seq<u32>, u: seq<u32>)
    requires Normal(s) && Normal(u) && Complement(t, s) && Complement(u, t)
    ensures u == s
  {
    forall c | 0 <= c <= UINT32_MAX
      ensures Contains(u, c) <==> Contains(s, c)
    {
    }
    NormalUnique(u, s, 0);
  }

  // ---- removing empty and touching intervals ----

  ghost predicate SameSet(a: seq<u32>, b: seq<u32>) {
    forall c :: Odd(a, c) <==> Odd(b, c)
  }

  /** Two equal points in a row cancel. */
  lemma DropPair(a: seq<u32>, x: u32, b: seq<u32>)
    ensures SameSet(a + ([x, x] + b), a + b)
  {
    hide Count;
    forall c
      ensures Odd(a + ([x, x] + b), c) <==> Odd(a + b, c)
    {
      CountConcat(a, [x, x] + b, c);
      CountConcat([x, x], b, c);
      CountConcat([x], [x], c);
      assert [x] + [x] == [x, x];
      CountConcat(a, b, c);
    }
  }

  lemma SameTrans(a: seq<u32>, b: seq<u32>, c: seq<u32>)
    requires SameSet(a, b) && SameSet(b, c)
    ensures SameSet(a, c)
  {
    hide Odd;
  }

  lemma SameRefl(a: seq<u32>)
    ensures SameSet(a, a)
  {
  }

  /** Sorted lists that count alike contain alike. */
  lemma SameContains(a: seq<u32>, b: seq<u32>)
    requires Intervals(a) && Intervals(b) && SameSet(a, b)
    ensures forall c :: Contains(a, c) <==> Contains(b, c)
  {
    hide Odd, Contains, Intervals;
    forall c
      ensures Contains(a, c) <==> Contains(b, c)
    {
      ContainsIsOdd(a, c);
      ContainsIsOdd(b, c);
    }
  }

  /** Skipping an empty interval at the front of the rest. */
  lemma SkipEmpty(front: seq<u32>, s: seq<u32>, i: nat, all: seq<u32>)
    requires i + 1 < |s| && s[i] == s[i + 1] && SameSet(front + s[i..], all)
    ensures SameSet(front + s[i + 2..], all)
  {
    hide SameSet;
    assert s[i..] == [s[i], s[i]] + s[i + 2..];
    DropPair(front, s[i], s[i + 2..]);
    SameSym(front + s[i..], front + s[i + 2..]);
    SameTrans(front + s[i + 2..], front + s[i..], all);
  }

  lemma SameSym(a: seq<u32>, b: seq<u32>)
    requires SameSet(a, b)
    ensures SameSet(b, a)
  {
    hide Odd;
  }

  /** The interval from s[i] to s[j + 1], with what lies between them cancelled. */
  lemma TakeRun(front: seq<u32>, s: seq<u32>, i: nat, j: nat, all: seq<u32>)
    requires i <= j && j + 1 < |s| && SameSet(front + s[i..], all)
    requires SameSet((front + [s[i]]) + s[j + 1..], front + s[i..])
    ensures SameSet((front + [s[i], s[j + 1]]) + s[j + 2..], all)
  {
    hide SameSet;
    assert (front + [s[i], s[j + 1]]) + s[j + 2..] == (front + [s[i]]) + s[j + 1..];
    SameTrans((front + [s[i]]) + s[j + 1..], front + s[i..], all);
  }

  lemma GrowIncreasing(front: seq<u32>, x: u32, y: u32)
    requires StrictlyIncreasing(front) && x < y && (front != [] ==> front[|front| - 1] < x)
    ensures StrictlyIncreasing(front + [x, y])
  {
    var r := front + [x, y];
    forall a, b | 0 <= a < b < |r|
      ensures r[a] < r[b]
    {
      if a < |front| <= b {
        assert front[a] <= front[|front| - 1];
      }
    }
  }

  /** The first i points of s have been rewritten as r. */
  ghost predicate Progress(r: seq<u32>, s: seq<u32>, i: nat) {
    && i <= |s| && i % 2 == 0 && Intervals(s)
    && StrictlyIncreasing(r)
    && (r != [] && i < |s| ==> r[|r| - 1] < s[i])
    && SameSet(r + s[i..], s)
  }

  lemma ProgressStarts(s: seq<u32>)
    requires Intervals(s)
    ensures Progress([], s, 0)
  {
    hide SameSet;
    assert [] + s[0..] == s;
    SameRefl(s);
  }

  lemma ProgressSkips(r: seq<u32>, s: seq<u32>, i: nat)
    requires Progress(r, s, i) && i + 1 < |s| && s[i] == s[i + 1]
    ensures Progress(r, s, i + 2)
  {
    hide SameSet;
    SkipEmpty(r, s, i, s);
  }

  lemma ProgressTakes(r: seq<u32>, s: seq<u32>, i: nat, j: nat)
    requires Progress(r, s, i) && i <= j && j + 1 < |s| && j % 2 == 0 && s[i] < s[j + 1]
    requires j + 2 < |s| ==> s[j + 1] < s[j + 2]
    requires SameSet((r + [s[i]]) + s[j + 1..], r + s[i..])
    ensures Progress(r + [s[i], s[j + 1]], s, j + 2)
  {
    hide SameSet;
    TakeRun(r, s, i, j, s);
    GrowIncreasing(r, s[i], s[j + 1]);
  }

  lemma ProgressEnds(r: seq<u32>, s: seq<u32>)
    requires Progress(r, s, |s|) && |r| % 2 == 0
    ensures Normal(r) && forall c :: Contains(r, c) <==> Contains(s, c)
  {
    hide SameSet, Contains;
    assert r + s[|s|..] == r;
    SameContains(r, s);
  }

  class CharRange {
    var points: seq<u32>

    constructor ()
      ensures points == []
    {
      points := [];
    }

    method AddPoint(v: u32)
      modifies this
      ensures points == old(points) + [v]
    {
      points := points + [v];
    }

    method AddInterval(c1: u32, c2: u32)
      modifies this
      ensures points == old(points) + [c1, c2]
    {
      points := points + [c1, c2];
    }

    /** Merge intervals that touch and remove empty ones, in place. */
    method Compress()
      modifies this
      ensures old(Intervals(points)) ==> Normal(points)
      ensures old(Intervals(points)) ==> forall c :: Contains(points, c) <==> old(Contains(points, c))
    {
      hide Progress, Contains, StrictlyIncreasing, Intervals, Normal;
      ghost var s, r, good := points, [], Intervals(points);
      var pt, len := points, |points|;
      var i, k := 0, 0;
      if good {
        ProgressStarts(s);
      }
      while i + 1 < len
        invariant 0 <= k <= i <= len == |pt| == |s|
        invariant forall h :: i <= h < len ==> pt[h] == s[h]
        invariant good ==> pt[..k] == r && k % 2 == 0 && Progress(r, s, i)
        decreases len - i
      {
        if pt[i] == pt[i + 1] {
          if good {
            ProgressSkips(r, s, i);
          }
          i := i + 2;
        } else {
          var j := EndOfRun(pt, i, s, r);
          if good {
            ProgressIntervals(r, s, i);
            ProgressTakes(r, s, i, j);
          }
          Written(pt, k, pt[i], pt[j + 1]);
          r := r + [s[i], s[j + 1]];
          pt := pt[k := pt[i]][k + 1 := pt[j + 1]];
          k := k + 2;
          i := j + 2;
        }
      }
      points := pt[..k];
      if good {
        ProgressParity(r, s, i);
        ProgressEnds(r, s);
      }
    }

    /** The last interval of those that touch, from interval i on. */
    method EndOfRun(pt: seq<u32>, i: nat, ghost s: seq<u32>, ghost front: seq<u32>) returns (j: nat)
      requires |pt| == |s| && i + 1 < |s|
      requires forall h :: i <= h < |s| ==> pt[h] == s[h]
      requires s[i] != s[i + 1]
      ensures i <= j && j + 1 < |s|
      ensures Intervals(s) && i % 2 == 0 ==> j % 2 == 0 && s[i] < s[j + 1]
      ensures Intervals(s) && i % 2 == 0 && j + 2 < |s| ==> s[j + 1] < s[j + 2]
      ensures SameSet((front + [s[i]]) + s[j + 1..], front + s[i..])
    {
      hide SameSet;
      j := i;
      assert (front + [s[i]]) + s[i + 1..] == front + s[i..];
      SameRefl(front + s[i..]);
      while j + 3 < |pt| && pt[j + 1] == pt[j + 2]
        invariant i <= j && j + 1 < |s| && (j - i) % 2 == 0
        invariant SameSet((front + [s[i]]) + s[j + 1..], front + s[i..])
        decreases |s| - j
      {
        SkipEmpty(front + [s[i]], s, j + 1, front + s[i..]);
        j := j + 2;
      }
    }

    /** Append the boundary points of the union, intersection or symmetric difference. */
    method Op(a: seq<u32>, b: seq<u32>, op: SetOp)
      modifies this
      ensures old(CanAppend(points, a, b)) ==> Normal(points)
      ensures old(CanAppend(points, a, b)) ==>
        forall c :: Contains(points, c) <==> old(Contains(points, c)) || Combined(op, Contains(a, c), Contains(b, c))
      ensures old(CanAppend(points, a, b)) && op == Union ==>
        forall c :: Contains(points, c) <==> old(Contains(points, c)) || Contains(a, c) || Contains(b, c)
      ensures old(CanAppend(points, a, b)) && op == Inter ==>
        forall c :: Contains(points, c) <==> old(Contains(points, c)) || (Contains(a, c) && Contains(b, c))
      ensures old(CanAppend(points, a, b)) && op == Xor ==>
        forall c :: Contains(points, c) <==> old(Contains(points, c)) || Contains(a, c) != Contains(b, c)
    {
      hide Odd, Contains, StrictlyIncreasing, Merged, Below, CanAppend, Normal;
      ghost var pre, r, good := points, [], CanAppend(points, a, b);
      var ai, bi := 0, 0;
      if good {
        AppendStarts(pre, a, b, op);
      }
      while ai < |a| || bi < |b|
        invariant 0 <= ai <= |a| && 0 <= bi <= |b|
        invariant good ==> points == pre + r && |pre| % 2 == 0 && From(pre, r)
        invariant good ==> Merged(r, a[..ai], b[..bi], op)
        invariant good && ai < |a| ==> Below(r, a[..ai], b[..bi], a[ai])
        invariant good && bi < |b| ==> Below(r, a[..ai], b[..bi], b[bi])
        decreases |a| - ai + |b| - bi
      {
        ghost var a0, b0 := a[..ai], b[..bi];
        var v: u32;
        if ai < |a| && bi < |b| && a[ai] == b[bi] {
          v := a[ai];
          ai := ai + 1;
          bi := bi + 1;
        } else if ai < |a| && (bi == |b| || a[ai] < b[bi]) {
          v := a[ai];
          ai := ai + 1;
        } else {
          v := b[bi];
          bi := bi + 1;
        }
        var isIn := Combined(op, ai % 2 == 1, bi % 2 == 1);
        ghost var r0 := r;
        if isIn != (|points| % 2 == 1) {
          AddPoint(v);
          r := r + [v];
        }
        if good {
          FromNext(pre, a, b, r0, r, v);
          MergeStep(r0, r, a0, a[..ai], b0, b[..bi], v, op);
          BelowStep(r0, r, a0, b0, a, ai, b, bi, v);
        }
      }
      if good {
        assert a[..ai] == a && b[..bi] == b;
        AppendedIntervals(pre, r, a, b, op);
      }
      Compress();
    }

    method Union1(b: seq<u32>)
      modifies this
      ensures old(Intervals(points)) && Intervals(b) ==> Normal(points)
      ensures old(Intervals(points)) && Intervals(b) ==>
        forall c :: Contains(points, c) <==> old(Contains(points, c)) || Contains(b, c)
    {
      hide Contains, Intervals, Normal;
      var a := points;
      points := [];
      if Intervals(a) && Intervals(b) {
        NothingBefore(a, b);
      }
      Op(a, b, Union);
    }

    /** Add the interval from c1 to c2, both included. It is added if and only if c2 is below 2^32 - 1: the increment
        wraps there, and no list has an interval that contains 2^32 - 1. */
    method UnionInterval(c1: u32, c2: u32)
      modifies this
      ensures old(Intervals(points)) && c1 <= c2 < UINT32_MAX ==> Normal(points)
      ensures old(Intervals(points)) && c1 <= c2 ==>
        ((forall c :: Contains(points, c) <==> old(Contains(points, c)) || c1 <= c <= c2) <==> c2 < UINT32_MAX)
    {
      hide Intervals, Contains, Normal;
      if c1 <= c2 < UINT32_MAX {
        OneInterval(c1, (c2 + 1) % 0x1_0000_0000);
      }
      Union1([c1, (c2 + 1) % 0x1_0000_0000]);
      NoneContainsMax(points);
    }

    /** The complement in [0, 2^32 - 1). */
    method Invert()
      requires Intervals(points)
      modifies this
      ensures Normal(points) && Complement(points, old(points))
    {
      hide Contains, Intervals;
      ghost var s := points;
      points := [0] + points + [UINT32_MAX];
      ExtendedComplement(s);
      Compress();
    }
  }

  /** No interval ends above 2^32 - 1. */
  lemma NoneContainsMax(s: seq<u32>)
    ensures !Contains(s, UINT32_MAX)
  {
  }

  lemma ProgressIntervals(r: seq<u32>, s: seq<u32>, i: nat)
    requires Progress(r, s, i)
    ensures Intervals(s) && i % 2 == 0
  {
  }

  lemma ProgressParity(r: seq<u32>, s: seq<u32>, i: nat)
    requires Progress(r, s, i) && i + 1 >= |s|
    ensures i == |s|
  {
  }

  lemma OneInterval(x: u32, y: u32)
    requires x <= y
    ensures Intervals([x, y]) && forall c :: Contains([x, y], c) <==> x <= c < y
  {
    forall c
      ensures Contains([x, y], c) <==> x <= c < y
    {
      if x <= c < y {
        assert [x, y][2 * 0] <= c < [x, y][2 * 0 + 1];
      }
    }
  }

  lemma Written(pt: seq<u32>, k: nat, x: u32, y: u32)
    requires k + 1 < |pt|
    ensures var q := pt[k := x][k + 1 := y];
      && |q| == |pt| && q[..k + 2] == pt[..k] + [x, y] && q[k + 1] == y
      && forall h :: k + 2 <= h < |pt| ==> q[h] == pt[h]
  {
  }

  // ---- merging two lists ----

  datatype SetOp = Union | Inter | Xor

  predicate Combined(op: SetOp, x: bool, y: bool) {
    match op
    case Union => x || y
    case Inter => x && y
    case Xor => x != y
  }

  /** The points r stand for the combination of the sets that the points a and b stand for. */
  ghost predicate Merged(r: seq<u32>, a: seq<u32>, b: seq<u32>, op: SetOp) {
    && Sorted(r)
    && (|r| % 2 == 1 <==> Combined(op, |a| % 2 == 1, |b| % 2 == 1))
    && forall c :: Odd(r, c) <==> Combined(op, Odd(a, c), Odd(b, c))
  }

  ghost predicate NotAbove(s: seq<u32>, v: int) {
    forall i :: 0 <= i < |s| ==> s[i] <= v
  }

  ghost predicate Below(r: seq<u32>, a: seq<u32>, b: seq<u32>, v: int) {
    NotAbove(r, v) && NotAbove(a, v) && NotAbove(b, v)
  }

  lemma NothingMerged(a: seq<u32>, b: seq<u32>, op: SetOp)
    ensures Merged([], a[..0], b[..0], op)
  {
  }

  /** Below the new point nothing changes, and from it on only the numbers of points matter. */
  lemma MergeStep(r: seq<u32>, r1: seq<u32>, a: seq<u32>, a1: seq<u32>, b: seq<u32>, b1: seq<u32>, v: u32, op: SetOp)
    requires Merged(r, a, b, op) && Below(r, a, b, v)
    requires a1 == a || a1 == a + [v]
    requires b1 == b || b1 == b + [v]
    requires r1 == r || r1 == r + [v]
    requires |r1| % 2 == 1 <==> Combined(op, |a1| % 2 == 1, |b1| % 2 == 1)
    ensures Merged(r1, a1, b1, op)
  {
    hide Odd;
    forall c
      ensures Odd(r1, c) <==> Combined(op, Odd(a1, c), Odd(b1, c))
    {
      OddStep(r, r1, v, c);
      OddStep(a, a1, v, c);
      OddStep(b, b1, v, c);
    }
  }

  lemma OddStep(s: seq<u32>, s1: seq<u32>, v: u32, c: int)
    requires NotAbove(s, v) && (s1 == s || s1 == s + [v])
    ensures c < v ==> (Odd(s1, c) <==> Odd(s, c))
    ensures c >= v ==> (Odd(s1, c) <==> |s1| % 2 == 1)
  {
    CountConcat(s, [v], c);
    if c >= v {
      CountAll(s1, c);
    } else {
      CountNone([v], c);
    }
  }

  /** The points of r are not below those of pre. */
  ghost predicate From(pre: seq<u32>, r: seq<u32>) {
    forall i, j :: 0 <= i < |pre| && 0 <= j < |r| ==> pre[i] <= r[j]
  }

  /** Points can be appended: the lists are in order and the receiver's points are not above those of a and b. */
  ghost predicate CanAppend(pre: seq<u32>, a: seq<u32>, b: seq<u32>) {
    Intervals(pre) && Intervals(a) && Intervals(b) && From(pre, a) && From(pre, b)
  }

  lemma NothingBefore(a: seq<u32>, b: seq<u32>)
    requires Intervals(a) && Intervals(b)
    ensures CanAppend([], a, b) && forall c :: !Contains([], c)
  {
  }

  lemma AppendStarts(pre: seq<u32>, a: seq<u32>, b: seq<u32>, op: SetOp)
    requires CanAppend(pre, a, b)
    ensures pre == pre + [] && |pre| % 2 == 0 && From(pre, []) && Merged([], a[..0], b[..0], op)
    ensures a != [] ==> Below([], a[..0], b[..0], a[0])
    ensures b != [] ==> Below([], a[..0], b[..0], b[0])
  {
    NothingMerged(a, b, op);
  }

  lemma FromNext(pre: seq<u32>, a: seq<u32>, b: seq<u32>, r: seq<u32>, r1: seq<u32>, v: u32)
    requires CanAppend(pre, a, b) && From(pre, r) && (v in a || v in b)
    requires r1 == r || r1 == r + [v]
    ensures From(pre, r1) && Sorted(a) && Sorted(b)
  {
  }

  lemma BelowStep(r: seq<u32>, r1: seq<u32>, a0: seq<u32>, b0: seq<u32>, a: seq<u32>, ai: nat, b: seq<u32>, bi: nat, v: u32)
    requires Sorted(a) && Sorted(b) && ai <= |a| && bi <= |b| && Below(r, a0, b0, v) && (r1 == r || r1 == r + [v])
    requires (a[..ai] == a0 || a[..ai] == a0 + [v]) && (b[..bi] == b0 || b[..bi] == b0 + [v])
    requires (ai < |a| ==> v <= a[ai]) && (bi < |b| ==> v <= b[bi])
    ensures ai < |a| ==> Below(r1, a[..ai], b[..bi], a[ai])
    ensures bi < |b| ==> Below(r1, a[..ai], b[..bi], b[bi])
  {
  }

  lemma AppendedIntervals(pre: seq<u32>, r: seq<u32>, a: seq<u32>, b: seq<u32>, op: SetOp)
    requires CanAppend(pre, a, b) && From(pre, r) && Merged(r, a, b, op)
    ensures Intervals(pre + r)
    ensures forall c :: Contains(pre + r, c) <==> Contains(pre, c) || Combined(op, Contains(a, c), Contains(b, c))
  {
    hide Odd, Contains;
    MergedIntervals(r, a, b, op);
    forall c
      ensures Contains(pre + r, c) <==> Contains(pre, c) || Contains(r, c)
    {
      AppendedContains(pre, r, c);
    }
  }

  lemma AppendedContains(pre: seq<u32>, r: seq<u32>, c: int)
    requires Intervals(pre) && Intervals(r) && From(pre, r)
    ensures Contains(pre + r, c) <==> Contains(pre, c) || Contains(r, c)
  {
    hide Count, Contains, Intervals;
    AppendedInOrder(pre, r);
    ContainsIsOdd(pre + r, c);
    ContainsIsOdd(pre, c);
    ContainsIsOdd(r, c);
    CountConcat(pre, r, c);
    CountSplits(r, c);
    if Count(r, c) > 0 {
      CountAll(pre, c);
    }
  }

  lemma AppendedInOrder(pre: seq<u32>, r: seq<u32>)
    requires Intervals(pre) && Intervals(r) && From(pre, r)
    ensures Intervals(pre + r) && |pre| % 2 == 0 && Sorted(r)
  {
  }

  lemma MergedIntervals(r: seq<u32>, a: seq<u32>, b: seq<u32>, op: SetOp)
    requires Merged(r, a, b, op) && Intervals(a) && Intervals(b)
    ensures Intervals(r)
    ensures forall c :: Contains(r, c) <==> Combined(op, Contains(a, c), Contains(b, c))
  {
    hide Odd, Contains;
    forall c
      ensures Contains(r, c) <==> Combined(op, Contains(a, c), Contains(b, c))
    {
      ContainsIsOdd(r, c);
      ContainsIsOdd(a, c);
      ContainsIsOdd(b, c);
    }
  }

  /** A point at the bottom and one at the top turn every interval inside out. */
  lemma ExtendedComplement(s: seq<u32>)
    requires Intervals(s)
    ensures Intervals([0] + s + [UINT32_MAX]) && Complement([0] + s + [UINT32_MAX], s)
  {
    hide Count, Contains;
    var t: seq<u32> := [0] + s + [UINT32_MAX];
    forall c
      ensures Contains(t, c) <==> 0 <= c < UINT32_MAX && !Contains(s, c)
    {
      ContainsIsOdd(t, c);
      ContainsIsOdd(s, c);
      CountConcat([0] + s, [UINT32_MAX], c);
      CountConcat([0], s, c);
      CountOne(0, c);
      CountOne(UINT32_MAX, c);
      if c >= UINT32_MAX {
        CountAll(s, c);
      } else if c < 0 {
        CountNone(s, c);
      }
    }
  }

  lemma CountOne(x: u32, c: int)
    ensures Count([x], c) == if x <= c then 1 else 0
  {
    if x <= c {
      CountAll([x], c);
    } else {
      CountNone([x], c);
    }
  }
}
