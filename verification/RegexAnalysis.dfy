/** Soundness of the static analyses the compiler makes on emitted code: the range search, the
    zero-advance analysis, the simple-atom analysis and the stack-depth scan. */
module RegexAnalysis {
  import opened Bytes
  import opened CharSets
  import opened RegexCode
  import opened RegexText
  import opened RegexSyntax
  import opened RegexReference
  import opened RegexMachine

  // ---- range instructions ----

  ghost predicate SortedPairs(ps: seq<(u32, u32)>) {
    && (forall i :: 0 <= i < |ps| ==> ps[i].0 <= ps[i].1)
    && (forall i, j :: 0 <= i < j < |ps| ==> ps[i].1 < ps[j].0)
  }

  ghost predicate InSomePair(ps: seq<(u32, u32)>, c: int, lo: int, hi: int)
    requires 0 <= lo && hi < |ps|
  {
    exists i :: lo <= i <= hi && ps[i].0 <= c <= ps[i].1
  }

  lemma {:induction false} SearchFinds(ps: seq<(u32, u32)>, c: int, lo: int, hi: int)
    requires SortedPairs(ps) && 0 <= lo && hi < |ps|
    ensures Search(ps, c, lo, hi) <==> InSomePair(ps, c, lo, hi)
    decreases hi - lo + 1
  {
    if lo <= hi {
      var mid := (lo + hi) / 2;
      if c < ps[mid].0 {
        SearchFinds(ps, c, lo, mid - 1);
        assert forall i :: mid <= i <= hi ==> c < ps[i].0;
      } else if c > ps[mid].1 {
        SearchFinds(ps, c, mid + 1, hi);
        assert forall i :: lo <= i <= mid ==> c > ps[i].1;
      }
    }
  }

  lemma InRange32Finds(ps: seq<(u32, u32)>, c: int)
    requires SortedPairs(ps) && ps != []
    ensures InRange32(ps, c) <==> InSomePair(ps, c, 0, |ps| - 1)
  {
    SearchFinds(ps, c, 0, |ps| - 1);
    if InSomePair(ps, c, 0, |ps| - 1) {
      var i :| 0 <= i <= |ps| - 1 && ps[i].0 <= c <= ps[i].1;
      assert ps[0].0 <= ps[i].0 && ps[i].1 <= ps[|ps| - 1].1;
    }
  }

  lemma Range32Pairs(points: seq<u32>)
    requires Normal(points) && |points| >= 2 && LastBound(points) > 0xffff
    ensures ClassInstr(points).Range32?
    ensures var ps := ClassInstr(points).pairs32;
      && |ps| == |points| / 2
      && SortedPairs(ps)
      && forall i :: 0 <= i < |ps| ==> ps[i].0 == points[2 * i] && ps[i].1 == points[2 * i + 1] as int - 1
  {
    hide Normal;
    var ps := ClassInstr(points).pairs32;
    forall i | 0 <= i < |ps|
      ensures ps[i].0 == points[2 * i] && ps[i].1 == points[2 * i + 1] as int - 1 && points[2 * i] < points[2 * i + 1]
    {
      NormalAt(points, 2 * i, 2 * i + 1);
    }
    forall i, j | 0 <= i < j < |ps| ensures ps[i].1 < ps[j].0 {
      NormalAt(points, 2 * i + 1, 2 * j);
    }
  }

  lemma NormalAt(points: seq<u32>, i: nat, j: nat)
    requires Normal(points) && i < j < |points|
    ensures points[i] < points[j]
  {
  }

  lemma Range32Correct(points: seq<u32>, c: codepoint)
    requires Normal(points) && |points| >= 2 && LastBound(points) > 0xffff
    ensures ClassInstr(points).Range32?
    ensures InRange32(ClassInstr(points).pairs32, c) <==> Contains(points, c)
  {
    Range32Pairs(points);
    var ps := ClassInstr(points).pairs32;
    InRange32Finds(ps, c);
    PairsAndPoints(ps, points, c);
  }

  /** Pairs with inclusive upper bounds describe the same set as the boundary points. */
  lemma PairsAndPoints(ps: seq<(u32, u32)>, points: seq<u32>, c: int)
    requires ps != [] && |ps| == |points| / 2
    requires forall i :: 0 <= i < |ps| ==> ps[i].0 == points[2 * i] && ps[i].1 == points[2 * i + 1] as int - 1
    ensures InSomePair(ps, c, 0, |ps| - 1) <==> Contains(points, c)
  {
    if InSomePair(ps, c, 0, |ps| - 1) {
      var i :| 0 <= i <= |ps| - 1 && ps[i].0 <= c <= ps[i].1;
      assert points[2 * i] <= c < points[2 * i + 1];
    }
    if Contains(points, c) {
      var i :| 0 <= i < |points| / 2 && points[2 * i] <= c < points[2 * i + 1];
      assert ps[i].0 <= c <= ps[i].1;
    }
  }

  lemma SmallPoints(points: seq<u32>)
    requires Normal(points) && |points| >= 2 && LastBound(points) <= 0xffff
    ensures forall i :: 0 <= i < |points| - 1 ==> points[i] <= 0xffff
  {
    hide Normal;
    NormalEven(points);
    forall i | 0 <= i < |points| - 1 ensures points[i] <= 0xffff {
      if i < |points| - 2 {
        NormalAt(points, i, |points| - 2);
      }
      NormalAt(points, |points| - 2, |points| - 1);
    }
  }

  lemma Range16Bounds(points: seq<u32>)
    requires Normal(points) && |points| >= 2 && LastBound(points) <= 0xffff
    ensures ClassInstr(points).Range?
    ensures var ps := Widen(ClassInstr(points).pairs); var last := points[|points| - 1];
      && |ps| == |points| / 2
      && (forall i :: 0 <= i < |ps| ==> ps[i].0 == points[2 * i])
      && (forall i :: 0 <= i < |ps| - 1 ==> ps[i].1 == points[2 * i + 1] as int - 1)
      && ps[|ps| - 1].1 == if last == UINT32_MAX then 0xffff else last as int - 1
  {
    SmallPoints(points);
    NormalEven(points);
    NormalAt(points, |points| - 2, |points| - 1);
    hide Normal;
    var ps := Widen(ClassInstr(points).pairs);
    forall i | 0 <= i < |ps| ensures ps[i].0 == points[2 * i] {
      assert points[2 * i] <= 0xffff;
    }
    forall i | 0 <= i < |ps| - 1 ensures ps[i].1 == points[2 * i + 1] as int - 1 {
      assert 2 * i + 1 < |points| - 1;
      assert points[2 * i + 1] <= 0xffff;
      NormalAtOdd(points, i);
    }
  }

  lemma NormalAtOdd(points: seq<u32>, i: nat)
    requires Normal(points) && 2 * i + 1 < |points|
    ensures points[2 * i] < points[2 * i + 1]
  {
  }

  lemma Range16Pairs(points: seq<u32>)
    requires Normal(points) && |points| >= 2 && LastBound(points) <= 0xffff
    ensures ClassInstr(points).Range?
    ensures SortedPairs(Widen(ClassInstr(points).pairs))
  {
    Range16Bounds(points);
    SmallPoints(points);
    hide Normal, ClassInstr, Widen;
    var ps := Widen(ClassInstr(points).pairs);
    var n := |ps|;
    forall i | 0 <= i < n ensures ps[i].0 <= ps[i].1 {
      NormalAtOdd(points, i);
      if i == n - 1 {
        assert ps[i].0 <= 0xffff;
      }
    }
    forall i, j | 0 <= i < j < n ensures ps[i].1 < ps[j].0 {
      NormalAt(points, 2 * i + 1, 2 * j);
    }
  }

  lemma NormalEven(points: seq<u32>)
    requires Normal(points)
    ensures |points| % 2 == 0
  {
  }

  lemma Range16Correct(points: seq<u32>, c: codepoint)
    requires Normal(points) && |points| >= 2 && LastBound(points) <= 0xffff
    ensures ClassInstr(points).Range?
    ensures InRange16(ClassInstr(points).pairs, c) <==> Contains(points, c)
  {
    Range16Bounds(points);
    Range16Pairs(points);
    NormalEven(points);
    hide Normal, ClassInstr, SortedPairs, InRange16, InSomePair, Contains, LastBound;
    var ps := ClassInstr(points).pairs;
    var n := |ps|;
    var ws := Widen(ps);
    var infinite := points[2 * n - 1] == UINT32_MAX;
    NormalAt(points, 2 * n - 2, 2 * n - 1);
    InRange16Finds(ps, c);
    if c >= 0xffff && infinite {
      LastInterval(points, n - 1, c);
      FirstBelowLast(ws);
    } else {
      FinitePairs(ws, points, c);
      if InSomePair(ws, c, 0, n - 1) {
        FirstBelow(ws, c);
      }
    }
  }

  /** The 16-bit test: the open end, or a pair that is found. */
  lemma InRange16Finds(ps: seq<(u16, u16)>, c: int)
    requires ps != [] && SortedPairs(Widen(ps))
    ensures var ws := Widen(ps); var n := |ps|;
      InRange16(ps, c) <==>
        ws[0].0 <= c && ((c >= 0xffff && ws[n - 1].1 == 0xffff) || InSomePair(ws, c, 0, n - 1))
  {
    hide SortedPairs, InSomePair, InRange32;
    InRange32Finds(Widen(ps), c);
  }

  lemma LastInterval(points: seq<u32>, i: nat, c: int)
    requires 2 * i + 1 < |points| && points[2 * i] <= c < points[2 * i + 1]
    ensures Contains(points, c)
  {
  }

  lemma FinitePairs(ps: seq<(u32, u32)>, points: seq<u32>, c: codepoint)
    requires ps != [] && |points| == 2 * |ps|
    requires forall i :: 0 <= i < |ps| ==> ps[i].0 == points[2 * i]
    requires forall i :: 0 <= i < |ps| - 1 ==> ps[i].1 == points[2 * i + 1] as int - 1
    requires ps[|ps| - 1].1 == if points[|points| - 1] == UINT32_MAX then 0xffff else points[|points| - 1] as int - 1
    requires points[|points| - 1] == UINT32_MAX ==> c < 0xffff
    ensures InSomePair(ps, c, 0, |ps| - 1) <==> Contains(points, c)
  {
    if InSomePair(ps, c, 0, |ps| - 1) {
      var i :| 0 <= i <= |ps| - 1 && ps[i].0 <= c <= ps[i].1;
      assert points[2 * i] <= c < points[2 * i + 1];
    }
    if Contains(points, c) {
      var i :| 0 <= i < |points| / 2 && points[2 * i] <= c < points[2 * i + 1];
      assert ps[i].0 <= c <= ps[i].1;
    }
  }

  lemma FirstBelow(ps: seq<(u32, u32)>, c: int)
    requires SortedPairs(ps) && ps != [] && InSomePair(ps, c, 0, |ps| - 1)
    ensures ps[0].0 <= c
  {
    var i :| 0 <= i <= |ps| - 1 && ps[i].0 <= c <= ps[i].1;
  }

  lemma FirstBelowLast(ps: seq<(u32, u32)>)
    requires SortedPairs(ps) && ps != []
    ensures ps[0].0 <= ps[|ps| - 1].0
  {
  }

  /** The character instruction of a one-character pattern. */
  function CharInstrOf(f: Flags, n: Node): (i: Instr)
    requires n.Char? || n.AnyChar? || n.Class?
    ensures IsCharInstr(i)
  {
    match n
    case Char(c) => LiteralInstr(Fold(f, c))
    case AnyChar => if f.dotAll then Instr.Any else Instr.Dot
    case Class(points) => ClassInstr(points)
  }

  /** The emitted instruction accepts exactly the characters of the pattern. */
  lemma CharTestCorrect(f: Flags, n: Node, c: codepoint)
    requires n.Char? || n.AnyChar? || n.Class?
    requires ValidNode(n)
    ensures CharTest(f, CharInstrOf(f, n), c) <==> Accepts(f, n, c)
  {
    if n.Class? {
      var points := n.points;
      if points == [] {
        assert !Contains(points, Fold(f, c));
      } else if LastBound(points) <= 0xffff {
        Range16Correct(points, Fold(f, c));
      } else {
        Range32Correct(points, Fold(f, c));
      }
    }
  }

  // ---- lists of states ----

  /** A quantifier whose code is just the code of its atom. */
  predicate IsOnce(n: Node) { n.Quant? && n.min == 1 && n.max == 1 }

  lemma {:induction false} OnceMatches(e: Env, n: Node, back: bool, cc: nat, s: State)
    requires IsOnce(n) && ValidNode(n) && cc + Groups(n) <= e.captureCount && ValidState(e, s)
    ensures Matches(e, n, back, cc, s) == Matches(e, n.atom, back, cc, s)
  {
    hide Matches, Repeat, OptionalAll, ValidNode, Groups;
    QuantUnfold(n);
    var rs := Matches(e, n.atom, back, cc, s);
    QuantMatches(e, n, back, cc, s);
    RepeatOnce(e, n.atom, back, cc, s);
    OptionalNone(e, n.atom, back, cc, n.greedy, s.pos, Room(e, back, s.pos) + 1, rs);
  }

  lemma {:induction false} OptionalNone(e: Env, a: Node, back: bool, cc: nat, greedy: bool, from: nat, room: nat,
                                        rs: seq<State>)
    requires ValidNode(a) && cc + Groups(a) <= e.captureCount && AllFrom(e, back, from, rs)
    requires forall k :: 0 <= k < |rs| ==> Room(e, back, rs[k].pos) < room
    ensures OptionalAll(e, a, back, cc, Some(0), greedy, from, room, rs) == rs
    decreases |rs|
  {
    if rs != [] {
      OptionalNone(e, a, back, cc, greedy, from, room, rs[1..]);
      assert rs == [rs[0]] + rs[1..];
    }
  }

  // ---- zero-advance analysis ----

  predicate AllPredictable(code: seq<Instr>) { forall k :: 0 <= k < |code| ==> IsPredictable(code[k]) }

  predicate HasCharInstr(code: seq<Instr>) { exists k :: 0 <= k < |code| && IsCharInstr(code[k]) }

  lemma NeedCheckMeaning(code: seq<Instr>)
    ensures NeedCheckAdvance(code) <==> !(AllPredictable(code) && HasCharInstr(code))
  {
  }

  lemma PredictableParts(a: seq<Instr>, b: seq<Instr>)
    requires AllPredictable(a + b)
    ensures AllPredictable(a) && AllPredictable(b)
    ensures HasCharInstr(a + b) <==> HasCharInstr(a) || HasCharInstr(b)
  {
    assert forall k :: 0 <= k < |a| ==> (a + b)[k] == a[k];
    assert forall k :: 0 <= k < |b| ==> (a + b)[|a| + k] == b[k];
    assert forall k :: |a| <= k < |a + b| ==> (a + b)[k] == b[k - |a|];
  }

  /** All states are elsewhere than at `p`. */
  predicate Elsewhere(p: nat, rs: seq<State>) { forall k :: 0 <= k < |rs| ==> rs[k].pos != p }

  lemma {:induction false} MatchesAllElsewhere(e: Env, n: Node, back: bool, cc: nat, from: nat, rs: seq<State>)
    requires ValidNode(n) && cc + Groups(n) <= e.captureCount && AllFrom(e, back, from, rs)
    requires Elsewhere(from, rs) || forall k :: 0 <= k < |rs| ==> Elsewhere(rs[k].pos, Matches(e, n, back, cc, rs[k]))
    ensures Elsewhere(from, MatchesAll(e, n, back, cc, from, rs))
    decreases |rs|
  {
    if rs != [] {
      assert AllFrom(e, back, rs[0].pos, Matches(e, n, back, cc, rs[0]));
      MatchesAllElsewhere(e, n, back, cc, from, rs[1..]);
    }
  }

  /** The code of a quantifier is branch-free only when it runs its atom exactly once or never. */
  lemma PredictableQuant(atom: seq<Instr>, min: nat, max: nat, greedy: bool, first: nat, groups: nat)
    requires min <= max <= INFINITE && first + groups <= 0x100
    ensures AllPredictable(QuantCode(atom, min, max, greedy, first, groups)) ==> max == 0 || (min == 1 && max == 1)
    ensures max == 0 ==> !HasCharInstr(QuantCode(atom, min, max, greedy, first, groups))
    ensures AllPredictable(QuantCode(atom, min, max, greedy, first, groups)) && max == 1
            ==> QuantCode(atom, min, max, greedy, first, groups) == atom
  {
    hide NeedCheckAdvance, IsPredictable, SimpleLen;
    var code := QuantCode(atom, min, max, greedy, first, groups);
    assert forall i: Instr :: i.SimpleGreedy? || i.Split? || i.Loop? ==> !IsPredictable(i) by { Unpredictable(); }
    if greedy && max > 0 && SimpleLen(atom) > 0 {
      assert code[0].SimpleGreedy?;
    } else if min == 0 && max > 0 {
      var skip := if groups > 0 then 1 else 0;
      assert code[skip + if max == 1 || max == INFINITE then 0 else 1].Split?;
    } else if min == 1 && max == INFINITE && !NeedCheckAdvance(atom) {
      assert code[|code| - 1].Split?;
    } else if min > 1 {
      assert code[|atom| + 1].Loop?;
    } else if min == 1 && max == INFINITE {
      assert code[|atom|].Split?;
    } else if min == 1 && max > 1 {
      assert code[|atom| + 1].Split?;
    }
  }

  lemma Unpredictable()
    ensures forall i: Instr :: i.SimpleGreedy? || i.Split? || i.Loop? ==> !IsPredictable(i)
  {
  }

  /** Soundness of the zero-advance analysis: where the check is omitted, no match stays in place. */
  lemma {:induction false} AdvanceSound(e: Env, n: Node, back: bool, cc: nat, s: State)
    requires ValidNode(n) && cc + Groups(n) <= e.captureCount <= 0x100 && ValidState(e, s)
    requires AllPredictable(Code(e.flags, n, back, cc)) && HasCharInstr(Code(e.flags, n, back, cc))
    ensures Elsewhere(s.pos, Matches(e, n, back, cc, s))
    decreases Nodes(n), 1
  {
    hide AllPredictable, HasCharInstr, QuantCode, Len, ToU32, Behind;
    var f := e.flags;
    match n
    case Cat(a, b) =>
      CatAdvance(e, n, back, cc, s);
    case Alt(a, b) =>
      var ca, cb := Code(f, a, back, cc), Code(f, b, back, cc + Groups(a));
      SplitNotPredictable(Instr.Split(true, ToU32(Len(ca) + 5)), ca + [Instr.Goto(ToU32(Len(cb)))] + cb,
        Code(f, n, back, cc));
    case Capture(a) =>
      CaptureAdvance(e, n, back, cc, s);
    case Look(a, neg, behind) =>
      var ca := Code(f, a, behind, cc);
      SplitNotPredictable(Instr.Look(neg, ToU32(Len(ca) + 1)), ca + [Instr.Match], Code(f, n, back, cc));
    case Quant(a, min, max, greedy) =>
      PredictableQuant(Code(f, a, back, cc), min, max, greedy, cc, Groups(a));
      OnceMatches(e, n, back, cc, s);
      AdvanceSound(e, a, back, cc, s);
    case Char(_) =>
    case AnyChar =>
    case Class(_) =>
    case _ =>
      NoCharInstr(f, n, back, cc);
  }

  lemma CatAdvance(e: Env, n: Node, back: bool, cc: nat, s: State)
    requires n.Cat? && ValidNode(n) && cc + Groups(n) <= e.captureCount <= 0x100 && ValidState(e, s)
    requires AllPredictable(Code(e.flags, n, back, cc)) && HasCharInstr(Code(e.flags, n, back, cc))
    ensures Elsewhere(s.pos, Matches(e, n, back, cc, s))
    decreases Nodes(n), 0
  {
    hide AllPredictable, HasCharInstr, Code, Matches, MatchesAll, ValidNode, Groups, Nodes, Elsewhere;
    var f, a, b := e.flags, n.first, n.second;
    CatUnfold(f, n, back, cc);
    CatMatches(e, n, back, cc, s);
    var ca, cb := Code(f, a, back, cc), Code(f, b, back, cc + Groups(a));
    if back {
      PredictableParts(cb, ca);
      CatAdvances(e, b, cc + Groups(a), a, cc, back, s);
    } else {
      PredictableParts(ca, cb);
      CatAdvances(e, a, cc, b, cc + Groups(a), back, s);
    }
  }

  lemma CaptureAdvance(e: Env, n: Node, back: bool, cc: nat, s: State)
    requires n.Capture? && ValidNode(n) && cc + Groups(n) <= e.captureCount <= 0x100 && ValidState(e, s)
    requires AllPredictable(Code(e.flags, n, back, cc)) && HasCharInstr(Code(e.flags, n, back, cc))
    ensures Elsewhere(s.pos, Matches(e, n, back, cc, s))
    decreases Nodes(n), 0
  {
    hide AllPredictable, HasCharInstr, Code;
    CaptureUnfold(e.flags, n, back, cc);
    var a := n.body;
    var ca := Code(e.flags, a, back, cc + 1);
    PredictableParts([Instr.Save(back, cc)] + ca, [Instr.Save(!back, cc)]);
    PredictableParts([Instr.Save(back, cc)], ca);
    SavesHaveNoChar(back, cc);
    var s1 := SaveSlot(s, 2 * cc + if back then 1 else 0);
    SaveValid(e, s, 2 * cc + if back then 1 else 0);
    AdvanceSound(e, a, back, cc + 1, s1);
  }

  lemma CatAdvances(e: Env, a: Node, ccA: nat, b: Node, ccB: nat, back: bool, s: State)
    requires ValidNode(a) && ccA + Groups(a) <= e.captureCount <= 0x100 && ValidState(e, s)
    requires ValidNode(b) && ccB + Groups(b) <= e.captureCount
    requires AllPredictable(Code(e.flags, a, back, ccA)) && AllPredictable(Code(e.flags, b, back, ccB))
    requires HasCharInstr(Code(e.flags, a, back, ccA)) || HasCharInstr(Code(e.flags, b, back, ccB))
    ensures Elsewhere(s.pos, MatchesAll(e, b, back, ccB, s.pos, Matches(e, a, back, ccA, s)))
    decreases Nodes(a) + Nodes(b), 2
  {
    hide AllPredictable, HasCharInstr, Code, Matches;
    var rs := Matches(e, a, back, ccA, s);
    if HasCharInstr(Code(e.flags, a, back, ccA)) {
      AdvanceSound(e, a, back, ccA, s);
    } else {
      forall k | 0 <= k < |rs| ensures Elsewhere(rs[k].pos, Matches(e, b, back, ccB, rs[k])) {
        AdvanceSound(e, b, back, ccB, rs[k]);
      }
    }
    MatchesAllElsewhere(e, b, back, ccB, s.pos, rs);
  }

  lemma SaveValid(e: Env, s: State, slot: nat)
    requires ValidState(e, s) && slot < |s.caps|
    ensures ValidState(e, SaveSlot(s, slot))
  {
  }

  lemma SplitNotPredictable(i: Instr, rest: seq<Instr>, code: seq<Instr>)
    requires i.Split? || i.Look?
    requires |code| > 0 && code[0] == i
    ensures !AllPredictable(code)
  {
  }

  lemma SavesHaveNoChar(back: bool, cc: nat)
    requires cc < 0x100
    ensures !HasCharInstr([Instr.Save(back, cc)]) && !HasCharInstr([Instr.Save(!back, cc)])
  {
  }

  lemma NoCharInstr(f: Flags, n: Node, back: bool, cc: nat)
    requires ValidNode(n) && cc + Groups(n) <= 0x100
    requires n.Empty? || n.LineStart? || n.LineEnd? || n.WordBoundary? || n.BackRef?
    ensures !HasCharInstr(Code(f, n, back, cc))
  {
  }
}
