/** The canonical ordering of combining characters. */
module Ordering {

  /** The characters of combining class v, in order. */
  function Filter(s: seq<int>, cc: int -> nat, v: nat): (r: seq<int>) {
    if s == [] then []
    else Filter(s[..|s| - 1], cc, v) + if cc(s[|s| - 1]) == v then [s[|s| - 1]] else []
  }

  ghost predicate SortedByClass(s: seq<int>, cc: int -> nat) {
    forall i, j :: 0 <= i < j < |s| ==> cc(s[i]) <= cc(s[j])
  }

  /** A stable permutation: the characters of every class keep their order. */
  ghost predicate StablePermutation(now: seq<int>, was: seq<int>, cc: int -> nat) {
    |now| == |was| && forall v :: Filter(now, cc, v) == Filter(was, cc, v)
  }

  /** A maximal run of characters with a class other than 0. */
  ghost predicate Run(s: seq<int>, cc: int -> nat, lo: int, hi: int) {
    && 0 <= lo < hi <= |s|
    && (forall i :: lo <= i < hi ==> cc(s[i]) != 0)
    && (lo > 0 ==> cc(s[lo - 1]) == 0) && (hi < |s| ==> cc(s[hi]) == 0)
  }

  /** Canonical order: starters stay, and every run between them is sorted stably by class. */
  ghost predicate CanonicalOrder(now: seq<int>, was: seq<int>, cc: int -> nat) {
    && |now| == |was|
    && (forall i :: 0 <= i < |was| && cc(was[i]) == 0 ==> now[i] == was[i])
    && (forall lo, hi :: Run(was, cc, lo, hi) ==>
         SortedByClass(now[lo..hi], cc) && StablePermutation(now[lo..hi], was[lo..hi], cc))
  }

  lemma {:induction false} FilterConcat(a: seq<int>, b: seq<int>, cc: int -> nat, v: nat)
    ensures Filter(a + b, cc, v) == Filter(a, cc, v) + Filter(b, cc, v)
    decreases |b|
  {
    if b == [] {
      assert a + b == a;
    } else {
      assert (a + b)[..|a + b| - 1] == a + b[..|b| - 1];
      FilterConcat(a, b[..|b| - 1], cc, v);
    }
  }

  lemma {:induction false} FilterNone(s: seq<int>, cc: int -> nat, v: nat)
    requires forall i :: 0 <= i < |s| ==> cc(s[i]) != v
    ensures Filter(s, cc, v) == []
    decreases |s|
  {
    if s != [] {
      FilterNone(s[..|s| - 1], cc, v);
    }
  }

  lemma {:induction false} FilterMember(s: seq<int>, cc: int -> nat, v: nat)
    requires Filter(s, cc, v) != []
    ensures exists i :: 0 <= i < |s| && cc(s[i]) == v
    decreases |s|
  {
    if cc(s[|s| - 1]) != v {
      FilterMember(s[..|s| - 1], cc, v);
      var i :| 0 <= i < |s| - 1 && cc(s[..|s| - 1][i]) == v;
      assert cc(s[i]) == v;
    }
  }

  lemma FilterHead(s: seq<int>, cc: int -> nat, v: nat)
    requires s != []
    ensures Filter(s, cc, v) == (if cc(s[0]) == v then [s[0]] else []) + Filter(s[1..], cc, v)
  {
    assert s == [s[0]] + s[1..];
    FilterConcat([s[0]], s[1..], cc, v);
    assert [s[0]][..0] == [];
  }

  lemma HeadIsLeast(a: seq<int>, b: seq<int>, cc: int -> nat)
    requires SortedByClass(a, cc) && a != [] && b != [] && StablePermutation(a, b, cc)
    ensures cc(a[0]) <= cc(b[0])
  {
    FilterHead(b, cc, cc(b[0]));
    FilterMember(a, cc, cc(b[0]));
  }

  /** A run has only one order that is sorted and stable. */
  lemma {:induction false} SortedStableUnique(a: seq<int>, b: seq<int>, cc: int -> nat)
    requires SortedByClass(a, cc) && SortedByClass(b, cc) && StablePermutation(a, b, cc)
    ensures a == b
    decreases |a|
  {
    if a != [] {
      HeadIsLeast(a, b, cc);
      HeadIsLeast(b, a, cc);
      FilterHead(a, cc, cc(a[0]));
      FilterHead(b, cc, cc(a[0]));
      assert a[0] == Filter(a, cc, cc(a[0]))[0] == b[0];
      forall v
        ensures Filter(a[1..], cc, v) == Filter(b[1..], cc, v)
      {
        FilterHead(a, cc, v);
        FilterHead(b, cc, v);
        assert Filter(a[1..], cc, v) == Filter(a, cc, v)[if cc(a[0]) == v then 1 else 0..];
        assert Filter(b[1..], cc, v) == Filter(b, cc, v)[if cc(a[0]) == v then 1 else 0..];
      }
      SortedStableUnique(a[1..], b[1..], cc);
      assert a == [a[0]] + a[1..] && b == [b[0]] + b[1..];
    }
  }

  lemma StableTrans(a: seq<int>, b: seq<int>, c: seq<int>, cc: int -> nat)
    requires StablePermutation(a, b, cc) && StablePermutation(b, c, cc)
    ensures StablePermutation(a, c, cc)
  {
  }

  lemma StableSym(a: seq<int>, b: seq<int>, cc: int -> nat)
    requires StablePermutation(a, b, cc)
    ensures StablePermutation(b, a, cc)
  {
  }

  /** The run around a character. */
  lemma RunAround(s: seq<int>, cc: int -> nat, i: int) returns (lo: int, hi: int)
    requires 0 <= i < |s| && cc(s[i]) != 0
    ensures Run(s, cc, lo, hi) && lo <= i < hi
  {
    lo, hi := i, i + 1;
    while lo > 0 && cc(s[lo - 1]) != 0
      invariant 0 <= lo <= i && forall k :: lo <= k <= i ==> cc(s[k]) != 0
    {
      lo := lo - 1;
    }
    while hi < |s| && cc(s[hi]) != 0
      invariant i < hi <= |s| && forall k :: lo <= k < hi ==> cc(s[k]) != 0
    {
      hi := hi + 1;
    }
  }

  /** The canonical order of a string is unique. */
  lemma CanonicalOrderUnique(a: seq<int>, b: seq<int>, was: seq<int>, cc: int -> nat)
    requires CanonicalOrder(a, was, cc) && CanonicalOrder(b, was, cc)
    ensures a == b
  {
    hide StablePermutation, SortedByClass;
    forall i | 0 <= i < |was|
      ensures a[i] == b[i]
    {
      if cc(was[i]) != 0 {
        var lo, hi := RunAround(was, cc, i);
        StableSym(b[lo..hi], was[lo..hi], cc);
        StableTrans(a[lo..hi], was[lo..hi], b[lo..hi], cc);
        SortedStableUnique(a[lo..hi], b[lo..hi], cc);
        assert a[i] == a[lo..hi][i - lo] && b[i] == b[lo..hi][i - lo];
      }
    }
  }

  // ---- inserting one character ----

  /** Moving x before characters of a higher class is stable. */
  lemma InsertStable(front: seq<int>, back: seq<int>, x: int, cc: int -> nat)
    requires forall i :: 0 <= i < |back| ==> cc(back[i]) > cc(x)
    ensures StablePermutation(front + [x] + back, front + back + [x], cc)
  {
    forall v
      ensures Filter(front + [x] + back, cc, v) == Filter(front + back + [x], cc, v)
    {
      FilterConcat(front + [x], back, cc, v);
      FilterConcat(front, [x], cc, v);
      FilterConcat(front + back, [x], cc, v);
      FilterConcat(front, back, cc, v);
      if v == cc(x) {
        FilterNone(back, cc, v);
      } else {
        FilterNone([x], cc, v);
      }
    }
  }

  lemma StableSnoc(a: seq<int>, b: seq<int>, x: int, cc: int -> nat)
    requires StablePermutation(a, b, cc)
    ensures StablePermutation(a + [x], b + [x], cc)
  {
    forall v
      ensures Filter(a + [x], cc, v) == Filter(b + [x], cc, v)
    {
      FilterConcat(a, [x], cc, v);
      FilterConcat(b, [x], cc, v);
    }
  }

  lemma InsertSorted(front: seq<int>, back: seq<int>, x: int, cc: int -> nat)
    requires SortedByClass(front + back, cc) && (forall i :: 0 <= i < |back| ==> cc(back[i]) > cc(x))
    requires front != [] ==> cc(front[|front| - 1]) <= cc(x)
    ensures SortedByClass(front + [x] + back, cc)
  {
    var s, t := front + back, front + [x] + back;
    assert forall i :: 0 <= i < |front| ==> t[i] == s[i];
    assert forall i :: |front| < i < |t| ==> t[i] == s[i - 1] && t[i] == back[i - |front| - 1];
    assert forall i :: 0 <= i < |front| ==> cc(s[i]) <= cc(s[|front| - 1]);
  }

  /** Move the character at j down past those of a higher class; returns the last position it does not pass. */
  method MoveDown(buf: array<int>, start: int, j: int, cc: int -> nat) returns (k: int)
    requires 0 <= start < j < buf.Length
    modifies buf
    ensures start - 1 <= k < j
    ensures buf[start..j + 1] == old(buf[start..k + 1]) + [old(buf[j])] + old(buf[k + 1..j])
    ensures forall i :: k < i < j ==> cc(old(buf[i])) > cc(old(buf[j]))
    ensures k >= start ==> cc(old(buf[k])) <= cc(old(buf[j]))
    ensures forall i :: 0 <= i < start || j < i < buf.Length ==> buf[i] == old(buf[i])
  {
    ghost var s := buf[..];
    var ch := buf[j];
    k := j - 1;
    while k >= start && cc(buf[k]) > cc(ch)
      invariant start - 1 <= k < j
      invariant forall i :: 0 <= i < start || j < i < buf.Length ==> buf[i] == s[i]
      invariant forall i :: start <= i <= k ==> buf[i] == s[i]
      invariant forall i :: k + 1 < i <= j ==> buf[i] == s[i - 1]
      invariant forall i :: k < i < j ==> cc(s[i]) > cc(ch)
    {
      buf[k + 1] := buf[k];
      k := k - 1;
    }
    buf[k + 1] := ch;
    Assembled(buf[..], s, start, k, j);
    assert buf[start..j + 1] == buf[..][start..j + 1];
  }

  lemma Assembled(t: seq<int>, s: seq<int>, start: int, k: int, j: int)
    requires 0 <= start <= j < |s| == |t| && start - 1 <= k < j
    requires forall i :: start <= i <= k ==> t[i] == s[i]
    requires t[k + 1] == s[j]
    requires forall i :: k + 1 < i <= j ==> t[i] == s[i - 1]
    ensures t[start..j + 1] == s[start..k + 1] + [s[j]] + s[k + 1..j]
  {
  }

  /** The character at j goes to its place among those from start on. */
  method InsertChar(buf: array<int>, start: int, j: int, cc: int -> nat, ghost was: seq<int>)
    requires 0 <= start < j < buf.Length == |was|
    requires SortedByClass(buf[start..j], cc) && StablePermutation(buf[start..j], was[start..j], cc) && buf[j] == was[j]
    modifies buf
    ensures SortedByClass(buf[start..j + 1], cc) && StablePermutation(buf[start..j + 1], was[start..j + 1], cc)
    ensures forall i :: 0 <= i < start || j < i < buf.Length ==> buf[i] == old(buf[i])
  {
    hide StablePermutation, SortedByClass, Filter;
    ghost var s := buf[..];
    var k := MoveDown(buf, start, j, cc);
    Inserted(s, was, start, k, j, cc);
  }

  lemma Inserted(s: seq<int>, was: seq<int>, start: int, k: int, j: int, cc: int -> nat)
    requires 0 <= start < j < |s| == |was| && start - 1 <= k < j && s[j] == was[j]
    requires SortedByClass(s[start..j], cc) && StablePermutation(s[start..j], was[start..j], cc)
    requires forall i :: k < i < j ==> cc(s[i]) > cc(s[j])
    requires k >= start ==> cc(s[k]) <= cc(s[j])
    ensures var t := s[start..k + 1] + [s[j]] + s[k + 1..j];
      SortedByClass(t, cc) && StablePermutation(t, was[start..j + 1], cc)
  {
    hide StablePermutation, SortedByClass, Filter;
    var front, back, ch := s[start..k + 1], s[k + 1..j], s[j];
    assert s[start..j] == front + back;
    InsertSorted(front, back, ch, cc);
    InsertStable(front, back, ch, cc);
    StableSnoc(front + back, was[start..j], ch, cc);
    assert was[start..j + 1] == was[start..j] + [ch];
    StableTrans(front + [ch] + back, front + back + [ch], was[start..j + 1], cc);
  }

  // ---- the whole buffer ----

  /** The order is right up to i, and the rest has not been touched. */
  ghost predicate OrderedTo(now: seq<int>, was: seq<int>, cc: int -> nat, i: int) {
    && |now| == |was|
    && (forall k :: 0 <= k < |was| && (cc(was[k]) == 0 || k >= i) ==> now[k] == was[k])
    && (forall lo, hi :: Run(was, cc, lo, hi) && hi <= i ==>
         SortedByClass(now[lo..hi], cc) && StablePermutation(now[lo..hi], was[lo..hi], cc))
    && (forall lo, hi :: Run(was, cc, lo, hi) ==> hi <= i || i <= lo)
  }

  lemma OrderedStarts(was: seq<int>, cc: int -> nat)
    ensures OrderedTo(was, was, cc, 0)
  {
  }

  lemma RunFirst(s: seq<int>, cc: int -> nat, lo: int, hi: int)
    requires Run(s, cc, lo, hi)
    ensures cc(s[lo]) != 0 && cc(s[hi - 1]) != 0
  {
  }

  lemma OrderedPastStarter(now: seq<int>, was: seq<int>, cc: int -> nat, i: int)
    requires OrderedTo(now, was, cc, i) && 0 <= i < |was| && cc(was[i]) == 0
    ensures OrderedTo(now, was, cc, i + 1)
  {
    forall lo, hi | Run(was, cc, lo, hi)
      ensures hi <= i + 1 || i + 1 <= lo
    {
      RunFirst(was, cc, lo, hi);
    }
    forall lo, hi | Run(was, cc, lo, hi) && hi <= i + 1
      ensures SortedByClass(now[lo..hi], cc) && StablePermutation(now[lo..hi], was[lo..hi], cc)
    {
      RunFirst(was, cc, lo, hi);
    }
  }

  lemma RunsMeet(s: seq<int>, cc: int -> nat, lo: int, hi: int, lo1: int, hi1: int)
    requires Run(s, cc, lo, hi) && Run(s, cc, lo1, hi1)
    ensures (lo == lo1 && hi == hi1) || hi <= lo1 || hi1 <= lo
  {
  }

  lemma OrderedPastRun(now: seq<int>, was: seq<int>, next: seq<int>, cc: int -> nat, lo: int, hi: int)
    requires OrderedTo(now, was, cc, lo) && Run(was, cc, lo, hi) && |next| == |was|
    requires forall k :: 0 <= k < |was| && !(lo <= k < hi) ==> next[k] == now[k]
    requires SortedByClass(next[lo..hi], cc) && StablePermutation(next[lo..hi], was[lo..hi], cc)
    ensures OrderedTo(next, was, cc, hi)
  {
    hide SortedByClass, StablePermutation;
    forall lo1, hi1 | Run(was, cc, lo1, hi1)
      ensures hi1 <= hi || hi <= lo1
      ensures hi1 <= hi ==> SortedByClass(next[lo1..hi1], cc) && StablePermutation(next[lo1..hi1], was[lo1..hi1], cc)
    {
      RunsMeet(was, cc, lo, hi, lo1, hi1);
      if hi1 <= lo {
        assert next[lo1..hi1] == now[lo1..hi1];
      }
    }
  }

  lemma OrderedEnds(now: seq<int>, was: seq<int>, cc: int -> nat)
    requires OrderedTo(now, was, cc, |was|)
    ensures CanonicalOrder(now, was, cc)
  {
    hide SortedByClass, StablePermutation;
  }

  lemma OneChar(s: seq<int>, cc: int -> nat)
    requires |s| == 1
    ensures SortedByClass(s, cc) && StablePermutation(s, s, cc)
  {
  }

  /** Sort the run that starts at `start`; returns its end. */
  method SortRun(buf: array<int>, start: int, cc: int -> nat, ghost was: seq<int>) returns (j: int)
    requires 0 <= start < buf.Length == |was| && cc(was[start]) != 0 && (start > 0 ==> cc(was[start - 1]) == 0)
    requires forall k :: start <= k < buf.Length ==> buf[k] == was[k]
    modifies buf
    ensures Run(was, cc, start, j)
    ensures SortedByClass(buf[start..j], cc) && StablePermutation(buf[start..j], was[start..j], cc)
    ensures forall k :: 0 <= k < buf.Length && !(start <= k < j) ==> buf[k] == old(buf[k])
  {
    hide StablePermutation, SortedByClass;
    j := start + 1;
    assert buf[start..j] == was[start..j];
    OneChar(buf[start..j], cc);
    while j < buf.Length && cc(buf[j]) != 0
      invariant start < j <= buf.Length && forall k :: start <= k < j ==> cc(was[k]) != 0
      invariant SortedByClass(buf[start..j], cc) && StablePermutation(buf[start..j], was[start..j], cc)
      invariant forall k :: 0 <= k < start || j <= k < buf.Length ==> buf[k] == old(buf[k])
    {
      InsertChar(buf, start, j, cc, was);
      j := j + 1;
    }
  }

  /** Put the buffer into canonical order. */
  method SortCc(buf: array<int>, cc: int -> nat)
    modifies buf
    ensures CanonicalOrder(buf[..], old(buf[..]), cc)
  {
    hide OrderedTo, CanonicalOrder, StablePermutation, SortedByClass;
    ghost var was := buf[..];
    OrderedStarts(was, cc);
    var i := 0;
    while i < buf.Length
      invariant 0 <= i && OrderedTo(buf[..], was, cc, if i <= buf.Length then i else buf.Length)
      invariant 0 < i <= buf.Length ==> cc(was[i - 1]) == 0
      decreases buf.Length - i
    {
      RestSame(buf[..], was, cc, i);
      if cc(buf[i]) != 0 {
        ghost var now := buf[..];
        var j := SortRun(buf, i, cc, was);
        OrderedPastRun(now, was, buf[..], cc, i, j);
        i := j;
      }
      if i < buf.Length {
        OrderedPastStarter(buf[..], was, cc, i);
      }
      i := i + 1;
    }
    OrderedEnds(buf[..], was, cc);
  }

  lemma RestSame(now: seq<int>, was: seq<int>, cc: int -> nat, i: int)
    requires OrderedTo(now, was, cc, i)
    ensures |now| == |was| && forall k :: i <= k < |was| && 0 <= k ==> now[k] == was[k]
  {
  }
}
