/** Case canonicalisation of characters and of character sets. */
module CaseFolding {
  import opened Bytes
  import opened CharSets
  import opened CharRanges
  import opened Sorting
  import opened CaseTables

  // ---- sorting intervals and merging those that overlap ----

  function PointCmp(x: (u32, u32), y: (u32, u32)): (r: int) {
    if x.0 > y.0 then 1 else if x.0 < y.0 then -1 else 0
  }

  lemma PointCmpOrders()
    ensures TotalPreorder(PointCmp)
  {
  }

  function Pairs(s: seq<u32>): (r: seq<(u32, u32)>)
    requires |s| % 2 == 0
    ensures |r| == |s| / 2
  {
    seq(|s| / 2, i requires 0 <= i < |s| / 2 => (s[2 * i], s[2 * i + 1]))
  }

  function Flat(ps: seq<(u32, u32)>): (r: seq<u32>)
    ensures |r| == 2 * |ps|
    ensures forall i :: 0 <= i < |ps| ==> r[2 * i] == ps[i].0 && r[2 * i + 1] == ps[i].1
  {
    seq(2 * |ps|, i requires 0 <= i < 2 * |ps| => if i % 2 == 0 then ps[i / 2].0 else ps[i / 2].1)
  }

  /** Every interval is given by its start and a bound that is not below it. */
  ghost predicate Forward(s: seq<u32>) {
    |s| % 2 == 0 && forall i :: 0 <= i < |s| / 2 ==> s[2 * i] <= s[2 * i + 1]
  }

  ghost predicate StartsSorted(s: seq<u32>) {
    forall i, j :: 0 <= i < j < |s| / 2 ==> s[2 * i] <= s[2 * j]
  }

  lemma PairIn(ps: seq<(u32, u32)>, qs: seq<(u32, u32)>, i: nat) returns (k: nat)
    requires multiset(ps) == multiset(qs) && i < |ps|
    ensures k < |qs| && qs[k] == ps[i]
  {
    assert ps[i] in multiset(ps);
    assert ps[i] in qs;
    k :| 0 <= k < |qs| && qs[k] == ps[i];
  }

  /** The order of the intervals does not matter. */
  lemma SameIntervals(s: seq<u32>, t: seq<u32>)
    requires |s| % 2 == 0 && |t| % 2 == 0 && multiset(Pairs(s)) == multiset(Pairs(t)) && Forward(s)
    ensures Forward(t) && forall c :: Contains(s, c) <==> Contains(t, c)
  {
    forall i | 0 <= i < |t| / 2
      ensures t[2 * i] <= t[2 * i + 1]
    {
      var k := PairIn(Pairs(t), Pairs(s), i);
    }
    forall c
      ensures Contains(s, c) <==> Contains(t, c)
    {
      IntervalsWithin(s, t, c);
      IntervalsWithin(t, s, c);
    }
  }

  lemma IntervalsWithin(s: seq<u32>, t: seq<u32>, c: int)
    requires |s| % 2 == 0 && |t| % 2 == 0 && multiset(Pairs(s)) == multiset(Pairs(t))
    ensures Contains(s, c) ==> Contains(t, c)
  {
    if Contains(s, c) {
      var i :| 0 <= i < |s| / 2 && s[2 * i] <= c < s[2 * i + 1];
      var k := PairIn(Pairs(s), Pairs(t), i);
      assert t[2 * k] <= c < t[2 * k + 1];
    }
  }

  lemma PairsOfFlat(ps: seq<(u32, u32)>)
    ensures Pairs(Flat(ps)) == ps
  {
    hide Flat;
    var fs := Flat(ps);
    forall k | 0 <= k < |ps|
      ensures Pairs(fs)[k] == ps[k]
    {
      assert fs[2 * k] == ps[k].0 && fs[2 * k + 1] == ps[k].1;
    }
  }

  /** Sort the intervals by their start. */
  method SortIntervals(s: seq<u32>) returns (t: seq<u32>)
    requires Forward(s)
    ensures |t| == |s| && Forward(t) && StartsSorted(t) && forall c :: Contains(s, c) <==> Contains(t, c)
  {
    hide Contains;
    var ps := Pairs(s);
    var a := new (u32, u32)[|ps|](i requires 0 <= i < |ps| => ps[i]);
    assert a[..] == ps;
    PointCmpOrders();
    ghost var _ := RqSort(a, PointCmp);
    t := Flat(a[..]);
    PairsOfFlat(a[..]);
    SizeOf(ps, a[..]);
    SameIntervals(s, t);
    assert forall i, j :: 0 <= i < j < a.Length ==> PointCmp(a[..][i], a[..][j]) <= 0;
  }

  lemma SizeOf(ps: seq<(u32, u32)>, qs: seq<(u32, u32)>)
    requires multiset(ps) == multiset(qs)
    ensures |ps| == |qs|
  {
    assert |multiset(ps)| == |ps| && |multiset(qs)| == |qs|;
  }

  lemma ContainsFrom(s: seq<u32>, i: nat, c: int)
    requires |s| % 2 == 0 && i % 2 == 0 && i + 1 < |s|
    ensures Contains(s[i..], c) <==> s[i] <= c < s[i + 1] || Contains(s[i + 2..], c)
  {
    var t, u := s[i..], s[i + 2..];
    if Contains(t, c) {
      var k :| 0 <= k < |t| / 2 && t[2 * k] <= c < t[2 * k + 1];
      if k > 0 {
        assert u[2 * (k - 1)] <= c < u[2 * (k - 1) + 1];
      }
    }
    if s[i] <= c < s[i + 1] {
      assert t[2 * 0] <= c < t[2 * 0 + 1];
    }
    if Contains(u, c) {
      var k :| 0 <= k < |u| / 2 && u[2 * k] <= c < u[2 * k + 1];
      assert t[2 * (k + 1)] <= c < t[2 * (k + 1) + 1];
    }
  }

  lemma ContainsSnoc(s: seq<u32>, x: u32, y: u32, c: int)
    requires |s| % 2 == 0
    ensures Contains(s + [x, y], c) <==> Contains(s, c) || x <= c < y
  {
    var t := s + [x, y];
    if Contains(t, c) {
      var k :| 0 <= k < |t| / 2 && t[2 * k] <= c < t[2 * k + 1];
      if k < |s| / 2 {
        assert s[2 * k] <= c < s[2 * k + 1];
      }
    }
    if Contains(s, c) {
      var k :| 0 <= k < |s| / 2 && s[2 * k] <= c < s[2 * k + 1];
      assert t[2 * k] <= c < t[2 * k + 1];
    }
    if x <= c < y {
      assert t[2 * (|s| / 2)] <= c < t[2 * (|s| / 2) + 1];
    }
  }

  /** What has been written, the interval being built, and what is still to be read make up the set. */
  ghost predicate Accounted(s: seq<u32>, out: seq<u32>, start: int, end: int, i: nat)
    requires i <= |s|
  {
    forall c :: Contains(s, c) <==> Contains(out, c) || start <= c < end || Contains(s[i..], c)
  }

  lemma AccountedStarts(s: seq<u32>)
    requires |s| % 2 == 0
    ensures Accounted(s, [], 0, 0, 0)
  {
    assert s[0..] == s;
  }

  /** Start a new interval. */
  lemma AccountedOpens(s: seq<u32>, out: seq<u32>, i: nat)
    requires |s| % 2 == 0 && i % 2 == 0 && i + 1 < |s| && Accounted(s, out, 0, 0, i)
    ensures Accounted(s, out, s[i], s[i + 1], i + 2)
  {
    hide Contains;
    var start: int, end: int, rest := s[i], s[i + 1], s[i + 2..];
    forall c
      ensures Contains(s, c) <==> Contains(out, c) || start <= c < end || Contains(rest, c)
    {
      ContainsFrom(s, i, c);
      assert Contains(s, c) <==> Contains(out, c) || Contains(s[i..], c);
    }
  }

  /** Extend the interval by one that starts inside it or touches it. */
  lemma AccountedGrows(s: seq<u32>, out: seq<u32>, start: int, end: int, i: nat, end1: int)
    requires |s| % 2 == 0 && i % 2 == 0 && i + 1 < |s| && Accounted(s, out, start, end, i)
    requires start <= s[i] <= end && s[i] <= s[i + 1] && end1 == (if s[i + 1] <= end then end else s[i + 1])
    ensures Accounted(s, out, start, end1, i + 2)
  {
    hide Contains;
    forall c
      ensures Contains(s, c) <==> Contains(out, c) || start <= c < end1 || Contains(s[i + 2..], c)
    {
      ContainsFrom(s, i, c);
    }
  }

  lemma AccountedCloses(s: seq<u32>, out: seq<u32>, start: u32, end: u32, i: nat)
    requires |out| % 2 == 0 && i <= |s| && Accounted(s, out, start, end, i)
    ensures Accounted(s, out + [start, end], 0, 0, i)
  {
    hide Contains;
    forall c
      ensures Contains(s, c) <==> Contains(out + [start, end], c) || Contains(s[i..], c)
    {
      ContainsSnoc(out, start, end, c);
    }
  }

  lemma AccountedEnds(s: seq<u32>, out: seq<u32>)
    requires Accounted(s, out, 0, 0, |s|)
    ensures forall c :: Contains(out, c) <==> Contains(s, c)
  {
    assert s[|s|..] == [];
  }

  lemma GrowSorted(out: seq<u32>, x: u32, y: u32)
    requires Intervals(out) && x <= y && (out != [] ==> out[|out| - 1] <= x)
    ensures Intervals(out + [x, y])
  {
    var r := out + [x, y];
    forall a, b | 0 <= a < b < |r|
      ensures r[a] <= r[b]
    {
      if a < |out| <= b {
        assert out[a] <= out[|out| - 1];
      }
    }
  }

  lemma StartsAt(s: seq<u32>, i: nat, j: nat)
    requires StartsSorted(s) && Forward(s) && i % 2 == 0 && j % 2 == 0 && i <= j && j + 1 < |s|
    ensures s[i] <= s[j] && s[i] <= s[i + 1] && s[j] <= s[j + 1]
  {
    assert i == 2 * (i / 2) && j == 2 * (j / 2);
    assert s[2 * (i / 2)] <= s[2 * (i / 2) + 1] && s[2 * (j / 2)] <= s[2 * (j / 2) + 1];
    if i < j {
      assert s[2 * (i / 2)] <= s[2 * (j / 2)];
    }
  }

  /** Merge intervals, sorted by their start, that overlap or touch. */
  method RemoveOverlap(s: seq<u32>) returns (r: seq<u32>)
    requires Forward(s) && StartsSorted(s)
    ensures Intervals(r) && forall c :: Contains(r, c) <==> Contains(s, c)
  {
    hide Contains, Accounted, Intervals, Forward, StartsSorted;
    ForwardEven(s);
    var i, j := 0, 0;
    var pt := s;
    ghost var out: seq<u32> := [];
    AccountedStarts(s);
    NoIntervals();
    while i < |s|
      invariant 0 <= j <= i <= |s| == |pt| && i % 2 == 0 && j % 2 == 0
      invariant forall h :: i <= h < |s| ==> pt[h] == s[h]
      invariant pt[..j] == out && Intervals(out) && Accounted(s, out, 0, 0, i)
      invariant out != [] && i < |s| ==> out[|out| - 1] <= s[i]
      decreases |s| - i
    {
      ghost var first := i;
      var start, end := pt[i], pt[i + 1];
      AccountedOpens(s, out, i);
      StartsAt(s, i, i);
      i := i + 2;
      while i < |s| && pt[i] <= end
        invariant first + 2 <= i <= |s| && i % 2 == 0 && start == s[first] <= end
        invariant Accounted(s, out, start, end, i)
        decreases |s| - i
      {
        StartsAt(s, first, i);
        ghost var end0 := end;
        if pt[i + 1] > end {
          end := pt[i + 1];
        }
        AccountedGrows(s, out, start, end0, i, end);
        i := i + 2;
      }
      AccountedCloses(s, out, start, end, i);
      GrowSorted(out, start, end);
      Written(pt, j, start, end);
      out := out + [start, end];
      pt := pt[j := start][j + 1 := end];
      j := j + 2;
    }
    r := pt[..j];
    AccountedEnds(s, out);
  }

  lemma ForwardEven(s: seq<u32>)
    requires Forward(s)
    ensures |s| % 2 == 0
  {
  }

  lemma NoIntervals()
    ensures Intervals([])
  {
  }

  // ---- the characters that conversion changes ----

  /** The points stand for the selected characters of the first n runs. */
  ghost predicate Marks(t: CaseTable, m: CaseMask, n: nat, points: seq<u32>)
    requires n <= |t.runs|
  {
    && Intervals(points)
    && (points != [] ==> n > 0 && points[|points| - 1] <= t.runs[n - 1].code + t.runs[n - 1].len)
    && forall c :: Contains(points, c) <==> exists i :: 0 <= i < n && Affected(t.runs[i], c, m)
  }

  /** The points of one more run, of which the part below `upto` is there. */
  ghost predicate Marking(t: CaseTable, m: CaseMask, n: nat, before: seq<u32>, points: seq<u32>, upto: int)
    requires n < |t.runs|
  {
    && Intervals(points)
    && upto <= t.runs[n].code + t.runs[n].len
    && (points != [] ==> points[|points| - 1] <= upto)
    && forall c :: Contains(points, c) <==> Contains(before, c) || (Affected(t.runs[n], c, m) && c < upto)
  }

  lemma MarkingStarts(t: CaseTable, m: CaseMask, n: nat, points: seq<u32>)
    requires TableOk(t) && n < |t.runs| && Marks(t, m, n, points)
    ensures Marking(t, m, n, points, points, t.runs[n].code)
  {
    hide Contains;
    assert n > 0 ==> t.runs[n - 1].code + t.runs[n - 1].len <= t.runs[n].code;
    forall c
      ensures Contains(points, c) <==> Contains(points, c) || (Affected(t.runs[n], c, m) && c < t.runs[n].code)
    {
    }
  }

  /** Add the interval [x, y), of which every character is selected and before which none is left. */
  lemma MarkingAdds(t: CaseTable, m: CaseMask, n: nat, before: seq<u32>, points: seq<u32>, upto: int, x: u32, y: u32)
    requires n < |t.runs| && Marking(t, m, n, before, points, upto)
    requires upto <= x <= y <= t.runs[n].code + t.runs[n].len
    requires forall c :: upto <= c < y ==> (Affected(t.runs[n], c, m) <==> x <= c)
    ensures Marking(t, m, n, before, points + [x, y], y)
  {
    hide Contains, Affected;
    GrowSorted(points, x, y);
    forall c
      ensures Contains(points + [x, y], c) <==> Contains(before, c) || (Affected(t.runs[n], c, m) && c < y)
    {
      ContainsSnoc(points, x, y, c);
    }
  }

  /** Skip characters that are not selected. */
  lemma MarkingSkips(t: CaseTable, m: CaseMask, n: nat, before: seq<u32>, points: seq<u32>, upto: int, to: int)
    requires n < |t.runs| && Marking(t, m, n, before, points, upto) && upto <= to <= t.runs[n].code + t.runs[n].len
    requires forall c :: upto <= c < to ==> !Affected(t.runs[n], c, m)
    ensures Marking(t, m, n, before, points, to)
  {
    hide Contains, Affected;
  }

  lemma MarkingEnds(t: CaseTable, m: CaseMask, n: nat, before: seq<u32>, points: seq<u32>)
    requires n < |t.runs| && Marks(t, m, n, before)
    requires Marking(t, m, n, before, points, t.runs[n].code + t.runs[n].len)
    ensures Marks(t, m, n + 1, points)
  {
    hide Contains, Intervals;
    forall c
      ensures Contains(points, c) <==> exists i :: 0 <= i < n + 1 && Affected(t.runs[i], c, m)
    {
      assert Contains(before, c) <==> exists i :: 0 <= i < n && Affected(t.runs[i], c, m);
      if Affected(t.runs[n], c, m) {
        assert InRun(t.runs[n], c);
      }
    }
  }

  /** Whether both cases are asked for, so that a whole run of alternating cases is selected. */
  predicate BothCases(m: CaseMask) {
    m.upper && (m.lower || m.fold)
  }

  method MarkRun(cr: CharRange, t: CaseTable, m: CaseMask, n: nat)
    requires TableOk(t) && n < |t.runs| && Marks(t, m, n, cr.points)
    modifies cr
    ensures Marks(t, m, n + 1, cr.points)
  {
    hide Marks, Marking, TableOk, Affected;
    var r := t.runs[n];
    ghost var before, end := cr.points, r.code + r.len;
    RunFits(t, n);
    MarkingStarts(t, m, n, before);
    if !Selected(r.kind, m) {
      NotSelected(r, m);
      MarkingSkips(t, m, n, before, cr.points, r.code, end);
    } else if r.kind.UL? && !BothCases(m) {
      MarkAlternating(cr, t, m, n, before);
    } else if r.kind.LSU? && !BothCases(m) {
      MarkTriple(cr, t, m, n, before);
    } else {
      WholeRun(r, m);
      MarkingAdds(t, m, n, before, cr.points, r.code, r.code, r.code + r.len);
      cr.AddInterval(r.code, r.code + r.len);
    }
    MarkingEnds(t, m, n, before, cr.points);
  }

  lemma RunFits(t: CaseTable, n: nat)
    requires TableOk(t) && n < |t.runs|
    ensures RunOk(t.runs[n])
  {
  }

  lemma NotSelected(r: CaseRun, m: CaseMask)
    requires !Selected(r.kind, m)
    ensures forall c :: !Affected(r, c, m)
  {
  }

  lemma WholeRun(r: CaseRun, m: CaseMask)
    requires Selected(r.kind, m) && !((r.kind.UL? || r.kind.LSU?) && !BothCases(m))
    ensures forall c :: r.code <= c < r.code + r.len ==> Affected(r, c, m)
  {
  }

  /** Every second character of a run of alternating cases. */
  method MarkAlternating(cr: CharRange, t: CaseTable, m: CaseMask, n: nat, ghost before: seq<u32>)
    requires n < |t.runs| && RunOk(t.runs[n]) && t.runs[n].kind.UL? && Selected(t.runs[n].kind, m) && !BothCases(m)
    requires Marking(t, m, n, before, cr.points, t.runs[n].code)
    modifies cr
    ensures Marking(t, m, n, before, cr.points, t.runs[n].code + t.runs[n].len)
  {
    hide Marking;
    var r := t.runs[n];
    var code: u32 := r.code + if m.upper then 1 else 0;
    var i := 0;
    while i < r.len
      invariant 0 <= i <= r.len && i % 2 == 0
      invariant Marking(t, m, n, before, cr.points, r.code + i)
    {
      Alternates(r, m, i);
      MarkingAdds(t, m, n, before, cr.points, r.code + i, code + i, code + i + 1);
      cr.AddInterval(code + i, code + i + 1);
      MarkingSkips(t, m, n, before, cr.points, code + i + 1, r.code + i + 2);
      i := i + 2;
    }
  }

  lemma Alternates(r: CaseRun, m: CaseMask, i: nat)
    requires RunOk(r) && r.kind.UL? && Selected(r.kind, m) && !BothCases(m) && i % 2 == 0 && i < r.len
    ensures i + 2 <= r.len
    ensures var x := r.code + i + if m.upper then 1 else 0;
      forall c :: r.code + i <= c < r.code + i + 2 ==> (Affected(r, c, m) <==> c == x)
  {
  }

  /** Two of the three characters of a run of lower, title and upper case. */
  method MarkTriple(cr: CharRange, t: CaseTable, m: CaseMask, n: nat, ghost before: seq<u32>)
    requires n < |t.runs| && RunOk(t.runs[n]) && t.runs[n].kind.LSU? && Selected(t.runs[n].kind, m) && !BothCases(m)
    requires Marking(t, m, n, before, cr.points, t.runs[n].code)
    modifies cr
    ensures Marking(t, m, n, before, cr.points, t.runs[n].code + t.runs[n].len)
  {
    hide Marking;
    var r := t.runs[n];
    var code: u32 := r.code;
    Triple(r, m);
    if !m.upper {
      MarkingAdds(t, m, n, before, cr.points, code, code, code + 1);
      cr.AddInterval(code, code + 1);
    } else {
      MarkingSkips(t, m, n, before, cr.points, code, code + 1);
    }
    MarkingAdds(t, m, n, before, cr.points, code + 1, code + 1, code + 2);
    cr.AddInterval(code + 1, code + 2);
    if m.upper {
      MarkingAdds(t, m, n, before, cr.points, code + 2, code + 2, code + 3);
      cr.AddInterval(code + 2, code + 3);
    } else {
      MarkingSkips(t, m, n, before, cr.points, code + 2, code + 3);
    }
  }

  lemma Triple(r: CaseRun, m: CaseMask)
    requires RunOk(r) && r.kind.LSU? && Selected(r.kind, m) && !BothCases(m)
    ensures Affected(r, r.code, m) <==> !m.upper
    ensures Affected(r, r.code + 1, m)
    ensures Affected(r, r.code + 2, m) <==> m.upper
  {
  }

  /** The set of the characters that the mask selects. */
  method UnicodeCase1(cr: CharRange, t: CaseTable, m: CaseMask)
    requires TableOk(t) && cr.points == []
    modifies cr
    ensures Intervals(cr.points) && forall c :: Contains(cr.points, c) <==> AffectedIn(t, c, m)
  {
    hide Marks, TableOk, Affected, Contains;
    var idx := 0;
    NoMarks(t, m);
    while idx < |t.runs|
      invariant 0 <= idx <= |t.runs| && Marks(t, m, idx, cr.points)
    {
      MarkRun(cr, t, m, idx);
      idx := idx + 1;
    }
    AllMarks(t, m, cr.points);
  }

  lemma NoMarks(t: CaseTable, m: CaseMask)
    ensures Marks(t, m, 0, [])
  {
  }

  lemma AllMarks(t: CaseTable, m: CaseMask, points: seq<u32>)
    requires Marks(t, m, |t.runs|, points)
    ensures Intervals(points) && forall c :: Contains(points, c) <==> AffectedIn(t, c, m)
  {
    hide Contains, Affected;
  }

  // ---- the image of a set ----

  /** Some run holds c and folds it to d. */
  ghost predicate FoldsTo(t: CaseTable, c: int, unicode: bool, d: int) {
    c >= 0 && exists i :: 0 <= i < |t.runs| && InRun(t.runs[i], c) && d == FoldingEntry(t, c, t.runs[i], unicode)
  }

  ghost predicate Image(t: CaseTable, unicode: bool, points: seq<u32>, d: int) {
    exists c :: Contains(points, c) && FoldsTo(t, c, unicode, d)
  }

  /** The interval of images that is being extended. */
  datatype Current = Nothing | Current(start: u32, end: u32)

  predicate Within(cur: Current, d: int) {
    cur.Current? && cur.start <= d < cur.end
  }

  /** The intervals collected so far, and the current one, are the images of the characters of `done`. */
  ghost predicate Collected(t: CaseTable, unicode: bool, done: seq<u32>, result: seq<u32>, cur: Current) {
    && Forward(result)
    && (cur.Current? ==> cur.start < cur.end <= 0x20_0000)
    && forall d :: Contains(result, d) || Within(cur, d) <==> Image(t, unicode, done, d)
  }

  lemma CollectedStarts(t: CaseTable, unicode: bool)
    ensures Collected(t, unicode, [], [], Nothing)
  {
  }

  /** All runs before idx lie below c. */
  ghost predicate RunsBelow(t: CaseTable, idx: nat, c: int)
  {
    forall j :: 0 <= j < idx && j < |t.runs| ==> t.runs[j].code + t.runs[j].len <= c
  }

  method FindRun(t: CaseTable, idx0: nat, c: nat) returns (idx: nat)
    requires TableOk(t) && RunsBelow(t, idx0, c)
    requires exists i :: 0 <= i < |t.runs| && InRun(t.runs[i], c)
    ensures idx < |t.runs| && InRun(t.runs[idx], c) && RunsBelow(t, idx, c)
  {
    ghost var k :| 0 <= k < |t.runs| && InRun(t.runs[k], c);
    idx := idx0;
    assert idx <= k;
    while !(t.runs[idx].code <= c < t.runs[idx].code + t.runs[idx].len)
      invariant idx <= k && RunsBelow(t, idx, c)
      decreases k - idx
    {
      idx := idx + 1;
    }
  }

  /** One more character: the last interval of `done` grows from [x, c) to [x, c + 1). */
  lemma ImageGrows(t: CaseTable, unicode: bool, front: seq<u32>, x: u32, c: u32, c1: u32, d: int)
    requires |front| % 2 == 0 && x <= c && c1 == c + 1
    ensures Image(t, unicode, front + [x, c1], d) <==> Image(t, unicode, front + [x, c], d) || FoldsTo(t, c, unicode, d)
  {
    hide Contains, FoldsTo;
    forall e
      ensures Contains(front + [x, c1], e) <==> Contains(front + [x, c], e) || e == c
    {
      ContainsSnoc(front, x, c1, e);
      ContainsSnoc(front, x, c, e);
    }
  }

  lemma ImageOpens(t: CaseTable, unicode: bool, front: seq<u32>, x: u32, d: int)
    requires |front| % 2 == 0
    ensures Image(t, unicode, front + [x, x], d) <==> Image(t, unicode, front, d)
  {
    hide Contains, FoldsTo;
    forall e
      ensures Contains(front + [x, x], e) <==> Contains(front, e)
    {
      ContainsSnoc(front, x, x, e);
    }
  }

  lemma CollectedOpens(t: CaseTable, unicode: bool, front: seq<u32>, x: u32, result: seq<u32>, cur: Current)
    requires |front| % 2 == 0 && Collected(t, unicode, front, result, cur)
    ensures Collected(t, unicode, front + [x, x], result, cur)
  {
    hide Contains, Image, Within, Forward;
    forall d
      ensures Contains(result, d) || Within(cur, d) <==> Image(t, unicode, front + [x, x], d)
    {
      ImageOpens(t, unicode, front, x, d);
    }
  }

  lemma FoldsToOne(t: CaseTable, c: nat, unicode: bool, idx: nat, d: int)
    requires TableOk(t) && idx < |t.runs| && InRun(t.runs[idx], c)
    ensures FoldsTo(t, c, unicode, d) <==> d == FoldingEntry(t, c, t.runs[idx], unicode)
  {
    hide FoldingEntry, TableOk;
    if FoldsTo(t, c, unicode, d) {
      var i :| 0 <= i < |t.runs| && InRun(t.runs[i], c) && d == FoldingEntry(t, c, t.runs[i], unicode);
      RunUnique(t, c, i, idx);
    }
  }

  /** The image of one more character: it extends the current interval or starts a new one. */
  method AddImage(result: CharRange, cur0: Current, d: u32, ghost t: CaseTable, ghost unicode: bool,
                  ghost front: seq<u32>, ghost x: u32, ghost c: u32, ghost idx: nat) returns (cur: Current)
    requires TableOk(t) && idx < |t.runs| && InRun(t.runs[idx], c) && d == FoldingEntry(t, c, t.runs[idx], unicode)
    requires |front| % 2 == 0 && x <= c < UINT32_MAX && d < 0x20_0000
    requires Collected(t, unicode, front + [x, c], result.points, cur0)
    modifies result
    ensures Collected(t, unicode, front + [x, c + 1], result.points, cur)
  {
    hide Contains, Image, FoldingEntry, FoldsTo, TableOk;
    ghost var was := result.points;
    if cur0.Nothing? {
      cur := Current(d, d + 1);
    } else if cur0.end == d {
      cur := Current(cur0.start, cur0.end + 1);
    } else {
      result.AddInterval(cur0.start, cur0.end);
      cur := Current(d, d + 1);
    }
    forall y
      ensures Contains(result.points, y) || Within(cur, y) <==> Image(t, unicode, front + [x, c + 1], y)
    {
      ImageGrows(t, unicode, front, x, c, c + 1, y);
      FoldsToOne(t, c, unicode, idx, y);
      if cur0.Current? {
        ContainsSnoc(was, cur0.start, cur0.end, y);
      }
    }
    if cur0.Current? {
      ForwardSnoc(was, cur0.start, cur0.end);
    }
  }

  lemma ForwardSnoc(s: seq<u32>, x: u32, y: u32)
    requires Forward(s) && x <= y
    ensures Forward(s + [x, y])
  {
  }

  /** Every character of the set is held by a run. */
  ghost predicate AllHeld(t: CaseTable, points: seq<u32>) {
    forall c :: Contains(points, c) ==> exists i :: 0 <= i < |t.runs| && InRun(t.runs[i], c)
  }

  lemma HeldAt(t: CaseTable, points: seq<u32>, i: nat, c: int)
    requires AllHeld(t, points) && i % 2 == 0 && i + 1 < |points| && points[i] <= c < points[i + 1]
    ensures exists k :: 0 <= k < |t.runs| && InRun(t.runs[k], c)
  {
    assert points[2 * (i / 2)] <= c < points[2 * (i / 2) + 1];
    assert Contains(points, c);
  }

  /** The images of one interval, character by character. */
  method FoldInterval(result: CharRange, cur0: Current, t: CaseTable, unicode: bool, points: seq<u32>, i: nat, idx0: nat)
    returns (cur: Current, idx: nat)
    requires TableOk(t) && |points| % 2 == 0 && i % 2 == 0 && i + 1 < |points| && points[i] < points[i + 1]
    requires AllHeld(t, points) && RunsBelow(t, idx0, points[i])
    requires Collected(t, unicode, points[..i], result.points, cur0)
    modifies result
    ensures Collected(t, unicode, points[..i + 2], result.points, cur) && RunsBelow(t, idx, points[i + 1])
  {
    hide Collected, FoldingEntry, TableOk, AllHeld, RunsBelow;
    var start, end := points[i], points[i + 1];
    var c := start;
    cur, idx := cur0, idx0;
    ghost var front := points[..i];
    CollectedOpens(t, unicode, front, start, result.points, cur);
    while c < end
      invariant start <= c <= end && RunsBelow(t, idx, c)
      invariant Collected(t, unicode, front + [start, c], result.points, cur)
    {
      HeldAt(t, points, i, c);
      idx := FindRun(t, idx, c);
      TableRun(t, idx);
      FoldingBounded(t, c, t.runs[idx], unicode);
      var d := FoldingEntry(t, c, t.runs[idx], unicode);
      cur := AddImage(result, cur, d, t, unicode, front, start, c, idx);
      RunsStillBelow(t, idx, c);
      c := c + 1;
    }
    assert front + [start, end] == points[..i + 2];
  }

  lemma TableRun(t: CaseTable, idx: nat)
    requires TableOk(t) && idx < |t.runs|
    ensures RunOk(t.runs[idx])
  {
  }

  lemma RunsStillBelow(t: CaseTable, idx: nat, c: int)
    requires RunsBelow(t, idx, c)
    ensures forall c1 :: c <= c1 ==> RunsBelow(t, idx, c1)
  {
  }

  /** The images of a set of selected characters: intervals in no particular order. */
  method FoldAll(result: CharRange, t: CaseTable, unicode: bool, points: seq<u32>)
    requires TableOk(t) && Normal(points) && AllHeld(t, points) && result.points == []
    modifies result
    ensures Forward(result.points)
    ensures forall d :: Contains(result.points, d) <==> Image(t, unicode, points, d)
  {
    hide Collected, TableOk, AllHeld, RunsBelow, Image, Contains;
    var cur := Nothing;
    var idx: nat := 0;
    var i := 0;
    CollectedStarts(t, unicode);
    NoRunsBelow(t);
    assert points[..0] == [];
    while i < |points|
      invariant 0 <= i <= |points| && i % 2 == 0
      invariant Collected(t, unicode, points[..i], result.points, cur)
      invariant i < |points| ==> RunsBelow(t, idx, points[i])
    {
      cur, idx := FoldInterval(result, cur, t, unicode, points, i, idx);
      RunsStillBelow(t, idx, points[i + 1]);
      i := i + 2;
    }
    assert points[..i] == points;
    ghost var was := result.points;
    if cur.Current? {
      CurrentForward(t, unicode, points, was, cur);
      result.AddInterval(cur.start, cur.end);
    }
    CollectedEnds(t, unicode, points, was, cur);
  }

  lemma NoRunsBelow(t: CaseTable)
    ensures forall c :: RunsBelow(t, 0, c)
  {
  }

  lemma CurrentForward(t: CaseTable, unicode: bool, done: seq<u32>, result: seq<u32>, cur: Current)
    requires Collected(t, unicode, done, result, cur) && cur.Current?
    ensures cur.start < cur.end
  {
  }

  lemma CollectedEnds(t: CaseTable, unicode: bool, done: seq<u32>, result: seq<u32>, cur: Current)
    requires Collected(t, unicode, done, result, cur)
    ensures var r := if cur.Current? then result + [cur.start, cur.end] else result;
      Forward(r) && forall d :: Contains(r, d) <==> Image(t, unicode, done, d)
  {
    hide Contains, Image;
    if cur.Current? {
      ForwardSnoc(result, cur.start, cur.end);
      forall d
        ensures Contains(result + [cur.start, cur.end], d) <==> Image(t, unicode, done, d)
      {
        ContainsSnoc(result, cur.start, cur.end, d);
      }
    }
  }

  /** d is the canonical form of a character of the set. */
  ghost predicate CanonicalImage(t: CaseTable, unicode: bool, points: seq<u32>, d: int) {
    d >= 0 && exists c: nat :: Contains(points, c) && Canonical(t, c, unicode, d)
  }

  lemma ContainsNat(points: seq<u32>, c: int)
    requires Contains(points, c)
    ensures 0 <= c < UINT32_MAX
  {
  }

  /** The selected part is folded by its runs, the rest stays: together that is the image under canonicalisation. */
  lemma ImageParts(t: CaseTable, unicode: bool, s: seq<u32>, inter: seq<u32>, sub: seq<u32>, d: int)
    requires TableOk(t) && AsciiAgrees(t, unicode)
    requires forall c :: Contains(inter, c) <==> AffectedIn(t, c, MaskFor(unicode)) && Contains(s, c)
    requires forall c :: Contains(sub, c) <==> (0 <= c < UINT32_MAX && !AffectedIn(t, c, MaskFor(unicode))) && Contains(s, c)
    ensures CanonicalImage(t, unicode, s, d) <==> Image(t, unicode, inter, d) || Contains(sub, d)
  {
    hide Contains, TableOk, AsciiAgrees, AffectedIn, Canonical, FoldsTo;
    if CanonicalImage(t, unicode, s, d) {
      var c: nat :| Contains(s, c) && Canonical(t, c, unicode, d);
      ContainsNat(s, c);
      if AffectedIn(t, c, MaskFor(unicode)) {
        CanonicalFolds(t, c, unicode, d);
      } else {
        UnaffectedCanonical(t, c, unicode);
        CanonicalUnique(t, c, unicode, c, d);
      }
    }
    if Image(t, unicode, inter, d) {
      var c :| Contains(inter, c) && FoldsTo(t, c, unicode, d);
      ContainsNat(s, c);
      FoldsCanonical(t, c, unicode, d);
    }
    if Contains(sub, d) {
      ContainsNat(s, d);
      UnaffectedCanonical(t, d, unicode);
    }
  }

  lemma AffectedRun(t: CaseTable, c: int, m: CaseMask) returns (i: int)
    requires AffectedIn(t, c, m)
    ensures 0 <= i < |t.runs| && Affected(t.runs[i], c, m) && InRun(t.runs[i], c)
  {
    i :| 0 <= i < |t.runs| && Affected(t.runs[i], c, m);
  }

  lemma CanonicalFolds(t: CaseTable, c: nat, unicode: bool, d: nat)
    requires TableOk(t) && AsciiAgrees(t, unicode) && AffectedIn(t, c, MaskFor(unicode)) && Canonical(t, c, unicode, d)
    ensures FoldsTo(t, c, unicode, d)
  {
    hide TableOk, AsciiAgrees, Affected, Canonical, FoldingEntry;
    var i := AffectedRun(t, c, MaskFor(unicode));
    AffectedCanonical(t, c, unicode, i);
    CanonicalUnique(t, c, unicode, d, FoldingEntry(t, c, t.runs[i], unicode));
  }

  lemma FoldsCanonical(t: CaseTable, c: nat, unicode: bool, d: int)
    requires TableOk(t) && AsciiAgrees(t, unicode) && AffectedIn(t, c, MaskFor(unicode)) && FoldsTo(t, c, unicode, d)
    ensures d >= 0 && Canonical(t, c, unicode, d)
  {
    hide TableOk, AsciiAgrees, Affected, Canonical, FoldingEntry;
    var i := AffectedRun(t, c, MaskFor(unicode));
    FoldsToOne(t, c, unicode, i, d);
    AffectedCanonical(t, c, unicode, i);
  }

  lemma InterHeld(t: CaseTable, m: CaseMask, inter: seq<u32>)
    requires forall c :: Contains(inter, c) ==> AffectedIn(t, c, m)
    ensures AllHeld(t, inter)
  {
    hide Contains, Affected;
    forall c | Contains(inter, c)
      ensures exists i :: 0 <= i < |t.runs| && InRun(t.runs[i], c)
    {
      var i := AffectedRun(t, c, m);
    }
  }

  /** Replace a set by the set of the canonical forms of its characters. */
  method RegexpCanonicalize(cr: CharRange, t: CaseTable, unicode: bool)
    requires TableOk(t) && AsciiAgrees(t, unicode) && Intervals(cr.points)
    modifies cr
    ensures Normal(cr.points)
    ensures forall d :: Contains(cr.points, d) <==> CanonicalImage(t, unicode, old(cr.points), d)
  {
    hide TableOk, AsciiAgrees, Contains, Image, CanonicalImage, AffectedIn, AllHeld, Intervals, Forward, StartsSorted,
      StrictlyIncreasing, CanAppend;
    ghost var s := cr.points;
    var m := MaskFor(unicode);
    var mask := new CharRange();
    var inter := new CharRange();
    var sub := new CharRange();
    var result := new CharRange();
    UnicodeCase1(mask, t, m);
    NothingBefore(mask.points, cr.points);
    inter.Op(mask.points, cr.points, Inter);
    mask.Invert();
    NormalIsIntervals(mask.points);
    NothingBefore(mask.points, cr.points);
    sub.Op(mask.points, cr.points, Inter);
    InterHeld(t, m, inter.points);
    FoldAll(result, t, unicode, inter.points);
    var sorted := SortIntervals(result.points);
    result.points := RemoveOverlap(sorted);
    cr.points := [];
    NormalIsIntervals(sub.points);
    NothingBefore(result.points, sub.points);
    cr.Op(result.points, sub.points, Union);
    forall d
      ensures Contains(cr.points, d) <==> CanonicalImage(t, unicode, s, d)
    {
      ImageParts(t, unicode, s, inter.points, sub.points, d);
    }
  }
}
