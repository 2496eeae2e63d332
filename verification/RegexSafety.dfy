/** Safety of every run, wherever in the text it starts: the machine is never stuck, its stacks keep to the depths of
    the linear scan, and its positions stay in the text. */
module RegexSafety {
  import opened Bytes
  import opened RegexCode
  import opened RegexText
  import opened RegexSyntax
  import opened RegexReference
  import opened RegexMachine
  import opened RegexSimple
  import opened RegexDepth
  import opened RegexLoops
  import opened RegexTheorem
  import opened RegexProgram
  import opened RegexJumps

  // ---- the program ----

  /** The program without its final `match`. */
  ghost function Inner(f: Flags, n: Node, sticky: bool): (r: seq<Instr>)
    requires ValidNode(n) && 1 + Groups(n) <= 0x100
  {
    CaptureValid(n);
    (if sticky then [] else SearchCode()) + Code(f, Node.Capture(n), false, 0)
  }

  /** The code is loaded, ends with `match`, keeps the depth, all its jumps land and its loops have counters. */
  ghost predicate Loaded(m: Machine, x: seq<Instr>) {
    && CodeAt(m.bc, 0, x + [Instr.Match])
    && AllSound(x, m.env.captureCount) && AllCounted(x)
    && DepthAfter(x, 0) == Some(0)
  }

  lemma SearchSound(groups: nat)
    ensures AllSound(SearchCode(), groups) && Balanced(SearchCode())
  {
    hide SameDepth, Lands;
    var code := SearchCode();
    BalancedOne(code[0]);
    BalancedOne(code[1]);
    BalancedOne(code[2]);
    BalancedConcat([code[0]], [code[1]]);
    BalancedConcat([code[0]] + [code[1]], [code[2]]);
    assert [code[0]] + [code[1]] + [code[2]] == code;
    BalancedEmpty();
    SameDepthBalanced(code, [code[0]]);
    SameDepthBalanced([], code);
    JumpSix();
    JumpBack(0, 11);
    LenOf(code[0]);
    SearchLen();
    LenNothing();
    LandsIntro(code, 0, 6, 3, [code[0]], code);
    LandsIntro(code, 2, Behind(11), 0, code, []);
  }

  lemma ProgramLoaded(m: Machine, n: Node, sticky: bool)
    requires Compiled(m, n, sticky)
    ensures ValidNode(n) && 1 + Groups(n) == m.env.captureCount <= 0x100
    ensures ProgramCode(m.env.flags, n, sticky) == Inner(m.env.flags, n, sticky) + [Instr.Match]
    ensures Loaded(m, Inner(m.env.flags, n, sticky))
  {
    hide Assemble, Len, CodeAt, ValidNode, Groups, AllSound, AllCounted, Balanced, ProgramCode, Code;
    CompiledParts(m, n, sticky);
    ProgramLayout(m, n, sticky);
    var f, g := m.env.flags, m.env.captureCount;
    ProgramShape(f, n, sticky);
    var code := Code(f, Node.Capture(n), false, 0);
    var prefix := if sticky then [] else SearchCode();
    assert prefix + (code + [Instr.Match]) == prefix + code + [Instr.Match];
    CodeSound(f, Node.Capture(n), false, 0, g);
    CodeBalanced(f, Node.Capture(n), false, 0);
    SearchSound(g);
    EmptySound(g);
    BalancedEmpty();
    SoundConcat(prefix, code, g);
    BalancedConcat(prefix, code);
    CodeCounted(f, Node.Capture(n), false, 0);
    NoLoops(SearchCode());
    NoLoops([]);
    CountedConcat(prefix, code);
    BalancedFromZero(prefix + code);
  }

  lemma BalancedFromZero(code: seq<Instr>)
    requires Balanced(code)
    ensures DepthAfter(code, 0) == Some(0)
  {
  }

  // ---- addresses ----

  /** `pc` is the address of an instruction, and the scan arrives there with depth `d`. */
  ghost predicate Place(x: seq<Instr>, pc: nat, d: nat) {
    exists k: nat :: k <= |x| && pc == Len(x[..k]) && DepthAfter(x[..k], 0) == Some(d)
  }

  lemma PlaceDepth(m: Machine, x: seq<Instr>, pc: nat, d: nat)
    requires Loaded(m, x) && Place(x, pc, d)
    ensures AtDepth(m.bc, pc, d)
  {
    hide AllSound, AllCounted, CodeAt, AtDepth, DepthAfter, Len;
    var k: nat :| k <= |x| && pc == Len(x[..k]) && DepthAfter(x[..k], 0) == Some(d);
    assert x + [Instr.Match] == x[..k] + (x[k..] + [Instr.Match]);
    CodeAtConcat(m.bc, 0, x[..k], x[k..] + [Instr.Match]);
    Depth0(m.bc);
    DepthPast(m.bc, 0, x[..k], 0);
  }

  lemma Fetch(bc: seq<u8>, x: seq<Instr>, k: nat)
    requires CodeAt(bc, 0, x + [Instr.Match]) && k <= |x|
    ensures Decode(bc, Len(x[..k])) == Some(if k < |x| then x[k] else Instr.Match)
    ensures CodeAt(bc, Len(x[..k]), x[k..] + [Instr.Match])
  {
    hide Decode, Len;
    assert x + [Instr.Match] == x[..k] + (x[k..] + [Instr.Match]);
    CodeAtConcat(bc, 0, x[..k], x[k..] + [Instr.Match]);
    assert (x[k..] + [Instr.Match])[0] == if k < |x| then x[k] else Instr.Match;
  }

  /** Behind instruction `k` the depth has changed by what the instruction does. */
  lemma DepthBehind(x: seq<Instr>, k: nat, d: nat)
    requires k < |x| && DepthAfter(x, 0).Some? && DepthAfter(x[..k], 0) == Some(d)
    ensures d + StackDelta(x[k]) >= 0 && DepthAfter(x[..k + 1], 0) == Some(d + StackDelta(x[k]))
    ensures Len(x[..k + 1]) == Len(x[..k]) + Size(x[k])
  {
    hide DepthAfter, Len, StackDelta, Size;
    assert x == x[..k + 1] + x[k + 1..];
    assert x[..k + 1] == x[..k] + [x[k]];
    DepthAfterConcat(x[..k + 1], x[k + 1..], 0);
    DepthAfterConcat(x[..k], [x[k]], 0);
    DepthAfterOne(x[k], d);
    LenConcat(x[..k], [x[k]]);
    LenOf(x[k]);
  }

  function JumpOf(i: Instr): (r: Option<u32>) {
    match i
    case Goto(off) => Some(off)
    case Split(_, off) => Some(off)
    case Look(_, off) => Some(off)
    case Loop(off) => Some(off)
    case SimpleGreedy(next, _, _, _) => Some(next)
    case _ => None
  }

  lemma JumpPlace(x: seq<Instr>, k: nat, d: nat, groups: nat)
    requires k < |x| && DepthAfter(x, 0).Some? && DepthAfter(x[..k], 0) == Some(d)
    requires Sound(x, k, groups) && JumpOf(x[k]).Some?
    ensures var to := Len(x[..k]) + Size(x[k]) + ToI32(JumpOf(x[k]).value); to >= 0 && Place(x, to, d)
  {
    hide DepthAfter, Len, Size, ToI32;
    DepthBehind(x, k, d);
    var off := JumpOf(x[k]).value;
    assert Lands(x, k, off);
    var j: nat :| LandsAt(x, k, off, j);
    assert DepthAfter(x[..j], 0) == DepthAfter(x[..k + 1], 0);
  }

  /** What is known of the instruction at a place: it can be fetched, falls through and jumps to places, saves into
      existing groups, and iterates over whole characters. */
  ghost predicate Fetched(m: Machine, x: seq<Instr>, pc: nat, d: nat, i: Instr) {
    && Decode(m.bc, pc) == Some(i)
    && (!i.Match? && !i.Goto? ==> d + StackDelta(i) >= 0 && Place(x, pc + Size(i), d + StackDelta(i)))
    && (JumpOf(i).Some? ==> var to := pc + Size(i) + ToI32(JumpOf(i).value); to >= 0 && Place(x, to, d))
    && (i.Loop? ==> d >= 1)
    && (i.Save? ==> i.idx < m.env.captureCount)
    && (i.SaveReset? ==> i.last < m.env.captureCount)
    && (i.SimpleGreedy? ==> i.len > 0 && Iterates(m, pc + 17, i.len))
  }

  /** One iteration, when it succeeds, reads `len` characters. */
  ghost predicate Iterates(m: Machine, pc: nat, len: nat) {
    forall p: nat :: p <= |m.env.text.units| && RunSimple(m, pc, p).Some? ==>
      Forward(m.env.text, p, len) == RunSimple(m, pc, p)
  }

  /** Code of simple instructions reads as many characters as it has character tests. */
  lemma {:induction false} RunReads(e: Env, code: seq<Instr>, p: nat)
    requires forall k :: 0 <= k < |code| ==> IsSimpleInstr(code[k])
    requires p <= |e.text.units| && RunCode(e, code, p).Some? && SimpleLen(code) >= 0
    ensures Forward(e.text, p, SimpleLen(code)) == RunCode(e, code, p)
    decreases |code|
  {
    hide CharTest, AtLineStart, AtLineEnd, AtWordBoundary;
    if code != [] {
      var q := ExecSimple(e, code[0], p).value;
      RunReads(e, code[1..], q);
    }
  }

  lemma AtomIterates(m: Machine, x: seq<Instr>, k: nat)
    requires CodeAt(m.bc, 0, x + [Instr.Match]) && k < |x| && x[k].SimpleGreedy?
    requires exists n: nat :: AtomAt(x, k, n)
    ensures x[k].len > 0 && Iterates(m, Len(x[..k]) + 17, x[k].len)
  {
    hide CodeAt, Len, SimpleLen, RunSimple, RunCode, Forward;
    var n: nat :| AtomAt(x, k, n);
    var atom := x[k + 1..k + 1 + n];
    Fetch(m.bc, x, k + 1);
    assert x[..k + 1] == x[..k] + [x[k]];
    LenConcat(x[..k], [x[k]]);
    LenOf(x[k]);
    var pc := Len(x[..k]) + 17;
    assert x[k + 1..] + [Instr.Match] == (atom + [Instr.Match]) + (x[k + 2 + n..] + [Instr.Match]);
    CodeAtConcat(m.bc, pc, atom + [Instr.Match], x[k + 2 + n..] + [Instr.Match]);
    SimpleLenMeaning(atom);
    forall p: nat | p <= |m.env.text.units| && RunSimple(m, pc, p).Some?
      ensures Forward(m.env.text, p, x[k].len) == RunSimple(m, pc, p)
    {
      RunSimpleRunsCode(m, pc, atom, p);
      RunReads(m.env, atom, p);
    }
  }

  lemma FetchAt(m: Machine, x: seq<Instr>, pc: nat, d: nat) returns (i: Instr)
    requires Loaded(m, x) && Place(x, pc, d)
    ensures Fetched(m, x, pc, d, i)
  {
    hide CodeAt, DepthAfter, Len, Size, ToI32, Decode, Iterates, AtomAt, Lands, StackDelta;
    var k: nat :| k <= |x| && pc == Len(x[..k]) && DepthAfter(x[..k], 0) == Some(d);
    Fetch(m.bc, x, k);
    if k == |x| {
      i := Instr.Match;
    } else {
      i := x[k];
      DepthBehind(x, k, d);
      assert Sound(x, k, m.env.captureCount) && Counted(x, k);
      if JumpOf(i).Some? {
        JumpPlace(x, k, d, m.env.captureCount);
      }
      if i.SimpleGreedy? {
        AtomIterates(m, x, k);
        SizeOfGreedy(i);
      }
    }
  }

  lemma SizeOfGreedy(i: Instr)
    requires i.SimpleGreedy?
    ensures Size(i) == 17
  {
  }

  // ---- the states of a run ----

  /** From `p`, `count` iterations of `len` characters can be given back. */
  ghost predicate CanGiveBack(t: Text, p: nat, len: nat, count: nat)
    decreases count
  {
    p <= |t.units|
    && (count == 0 || (Backward(t, p, len).Some? && CanGiveBack(t, Backward(t, p, len).value, len, count - 1)))
  }

  lemma {:induction false} GiveBackFewer(t: Text, p: nat, len: nat, count: nat, fewer: nat)
    requires CanGiveBack(t, p, len, count) && fewer <= count
    ensures CanGiveBack(t, p, len, fewer)
    decreases count
  {
    hide Backward;
    if fewer > 0 {
      GiveBackFewer(t, Backward(t, p, len).value, len, count - 1, fewer - 1);
    }
  }

  /** After the first iteration the position is a character boundary, so the iterations can be given back even when
      the first began inside a pair. */
  ghost predicate Iterated(t: Text, p: nat, len: nat, q: nat) {
    CanGiveBack(t, p, len, q) && (q > 0 ==> Boundary(t, p))
  }

  lemma IterateOnce(t: Text, p: nat, len: nat, q: nat)
    requires Iterated(t, p, len, q) && len > 0 && Forward(t, p, len).Some?
    ensures Iterated(t, Forward(t, p, len).value, len, q + 1)
  {
    hide Boundary, Forward, Backward;
    var p1 := Forward(t, p, len).value;
    ForwardThenBack(t, p, len);
    if q == 0 {
      assert CanGiveBack(t, Backward(t, p1, len).value, len, 0);
    }
  }

  ghost predicate Entry(m: Machine, x: seq<Instr>, s: Saved) {
    && InText(m.env, State(s.pos, s.caps)) && Place(x, s.pc, |s.stk|)
    && (s.kind.GreedyPoint? ==>
        Decode(m.bc, s.pc).Some? && Decode(m.bc, s.pc).value.SimpleGreedy?
        && s.count > 0 && CanGiveBack(m.env.text, s.pos, Decode(m.bc, s.pc).value.len, s.count))
  }

  ghost predicate Entries(m: Machine, x: seq<Instr>, ss: seq<Saved>) {
    forall k :: 0 <= k < |ss| ==> Entry(m, x, ss[k])
  }

  /** The state is not stuck, its addresses are places with the depth of their stacks, and its positions lie in the
      text. */
  ghost predicate Safe(m: Machine, x: seq<Instr>, c: Config) {
    match c
    case Run(pc, st, stk, ss) => InText(m.env, st) && Place(x, pc, |stk|) && Entries(m, x, ss)
    case Greedy(pc, q, st, stk, ss) =>
      && InText(m.env, st) && Place(x, pc, |stk|) && Entries(m, x, ss)
      && Decode(m.bc, pc).Some? && Decode(m.bc, pc).value.SimpleGreedy?
      && Iterated(m.env.text, st.pos, Decode(m.bc, pc).value.len, q)
    case Fail(ss) => Entries(m, x, ss)
    case Accept(caps, ss) => InText(m.env, State(0, caps)) && Entries(m, x, ss)
    case Halt(_) => true
    case Stuck => false
  }

  lemma PushEntry(m: Machine, x: seq<Instr>, ss: seq<Saved>, s: Saved)
    requires Entries(m, x, ss) && Entry(m, x, s)
    ensures Entries(m, x, ss + [s])
  {
    hide Entry;
  }

  lemma PopEntry(m: Machine, x: seq<Instr>, ss: seq<Saved>)
    requires Entries(m, x, ss) && ss != []
    ensures Entries(m, x, Front(ss)) && Entry(m, x, Last(ss))
  {
    hide Entry;
  }

  // ---- every step keeps the state safe ----

  lemma SimpleSafe(m: Machine, x: seq<Instr>, pc: nat, st: State, stk: seq<nat>, ss: seq<Saved>, i: Instr)
    requires Fetched(m, x, pc, |stk|, i) && InText(m.env, st) && Entries(m, x, ss)
    requires IsSimpleInstr(i) || i.Prev? || i.BackRef?
    ensures Safe(m, x, Exec(m, i, pc, st, stk, ss))
  {
    hide Decode, Place, Entries, CharTest, AtLineStart, AtLineEnd, AtWordBoundary, CompareForward, CompareBackward,
      ToI32, Iterates;
    if i.BackRef? && i.idx < m.env.captureCount && st.caps[2 * i.idx].Some? && st.caps[2 * i.idx + 1].Some? {
      var a, b := st.caps[2 * i.idx].value, st.caps[2 * i.idx + 1].value;
      CompareForwardBound(m.env, a, b, st.pos);
      CompareBackwardBound(m.env, a, b, st.pos);
    }
  }

  lemma {:induction false} CompareForwardBound(e: Env, p1: nat, end1: nat, p: nat)
    requires end1 <= |e.text.units| && p <= |e.text.units|
    ensures CompareForward(e, p1, end1, p).Some? ==> CompareForward(e, p1, end1, p).value <= |e.text.units|
    decreases end1 - p1
  {
    hide CharAt, PairAt, Fold;
    if p1 < end1 && p < |e.text.units| {
      CompareForwardBound(e, NextPos(e.text, p1, end1), end1, NextPos(e.text, p, |e.text.units|));
    }
  }

  lemma {:induction false} CompareBackwardBound(e: Env, start1: nat, p1: nat, p: nat)
    requires p1 <= |e.text.units| && p <= |e.text.units|
    ensures CompareBackward(e, start1, p1, p).Some? ==> CompareBackward(e, start1, p1, p).value <= p
    decreases p1
  {
    hide CharBefore, PairAt, Fold;
    if p1 > start1 && p > 0 {
      CompareBackwardBound(e, start1, PrevPos(e.text, p1, start1), PrevPos(e.text, p, 0));
    }
  }

  lemma StackSafe(m: Machine, x: seq<Instr>, pc: nat, st: State, stk: seq<nat>, ss: seq<Saved>, i: Instr)
    requires Fetched(m, x, pc, |stk|, i) && InText(m.env, st) && Entries(m, x, ss)
    requires i.PushI32? || i.PushCharPos? || i.Drop? || i.CheckAdvance? || i.Loop?
    ensures Safe(m, x, Exec(m, i, pc, st, stk, ss))
  {
    hide Decode, Place, Entries, ToI32, Iterates, InText;
    InTextPos(m.env, st);
  }

  lemma InTextPos(e: Env, s: State)
    requires InText(e, s)
    ensures s.pos <= |e.text.units| && |s.caps| == 2 * e.captureCount && State(s.pos, s.caps) == s
    ensures InText(e, State(0, s.caps))
  {
  }

  lemma SaveSafe(m: Machine, x: seq<Instr>, pc: nat, st: State, stk: seq<nat>, ss: seq<Saved>, i: Instr)
    requires Fetched(m, x, pc, |stk|, i) && InText(m.env, st) && Entries(m, x, ss)
    requires i.Save? || i.SaveReset?
    ensures Safe(m, x, Exec(m, i, pc, st, stk, ss))
  {
    hide Decode, Place, Entries, ToI32, Iterates;
  }

  lemma ControlSafe(m: Machine, x: seq<Instr>, pc: nat, st: State, stk: seq<nat>, ss: seq<Saved>, i: Instr)
    requires Fetched(m, x, pc, |stk|, i) && Place(x, pc, |stk|) && InText(m.env, st) && Entries(m, x, ss)
    requires i.Match? || i.Goto? || i.Split? || i.Look? || i.SimpleGreedy?
    ensures Safe(m, x, Exec(m, i, pc, st, stk, ss))
  {
    hide Decode, Place, Entries, ToI32, Iterates, InText, Boundary;
    InTextPos(m.env, st);
    match i
    case Split(nextFirst, off) =>
      var target := pc + 5 + ToI32(off);
      PushEntry(m, x, ss, Saved(SplitPoint, if nextFirst then target else pc + 5, st.pos, st.caps, stk, 0));
    case Look(neg, off) =>
      PushEntry(m, x, ss, Saved(LookPoint(neg), pc + 5 + ToI32(off), st.pos, st.caps, stk, 0));
    case SimpleGreedy(_, _, _, len) =>
      assert Iterated(m.env.text, st.pos, len, 0);
    case _ =>
  }

  lemma ExecSafe(m: Machine, x: seq<Instr>, pc: nat, st: State, stk: seq<nat>, ss: seq<Saved>)
    requires Loaded(m, x) && Safe(m, x, Run(pc, st, stk, ss))
    ensures Safe(m, x, Step(m, Run(pc, st, stk, ss)))
  {
    hide Loaded, Decode, Exec, Place, Entries, InText, Iterates, Fetched;
    var i := FetchAt(m, x, pc, |stk|);
    assert Decode(m.bc, pc) == Some(i) by { FetchedInstr(m, x, pc, |stk|, i); }
    match i
    case Match => ControlSafe(m, x, pc, st, stk, ss, i);
    case Goto(_) => ControlSafe(m, x, pc, st, stk, ss, i);
    case Split(_, _) => ControlSafe(m, x, pc, st, stk, ss, i);
    case Look(_, _) => ControlSafe(m, x, pc, st, stk, ss, i);
    case SimpleGreedy(_, _, _, _) => ControlSafe(m, x, pc, st, stk, ss, i);
    case Save(_, _) => SaveSafe(m, x, pc, st, stk, ss, i);
    case SaveReset(_, _) => SaveSafe(m, x, pc, st, stk, ss, i);
    case PushI32(_) => StackSafe(m, x, pc, st, stk, ss, i);
    case PushCharPos => StackSafe(m, x, pc, st, stk, ss, i);
    case Drop => StackSafe(m, x, pc, st, stk, ss, i);
    case CheckAdvance => StackSafe(m, x, pc, st, stk, ss, i);
    case Loop(_) => StackSafe(m, x, pc, st, stk, ss, i);
    case _ => SimpleSafe(m, x, pc, st, stk, ss, i);
  }

  lemma FetchedInstr(m: Machine, x: seq<Instr>, pc: nat, d: nat, i: Instr)
    requires Fetched(m, x, pc, d, i)
    ensures Decode(m.bc, pc) == Some(i)
  {
  }

  /** Leaving the loop of the greedy instruction after `q` iterations. */
  lemma LeaveSafe(m: Machine, x: seq<Instr>, pc: nat, i: Instr, q: nat, st: State, stk: seq<nat>, ss: seq<Saved>)
    requires i.SimpleGreedy? && Fetched(m, x, pc, |stk|, i) && Place(x, pc, |stk|)
    requires InText(m.env, st) && Entries(m, x, ss) && Iterated(m.env.text, st.pos, i.len, q)
    ensures Safe(m, x, LeaveGreedy(pc, i, q, st, stk, ss))
  {
    hide Decode, Place, Entries, ToI32, Iterates, InText, Boundary, CanGiveBack;
    InTextPos(m.env, st);
    if q > i.min {
      GiveBackFewer(m.env.text, st.pos, i.len, q, q - i.min);
      PushEntry(m, x, ss, Saved(GreedyPoint, pc, st.pos, st.caps, stk, q - i.min));
    }
  }

  lemma GreedySafe(m: Machine, x: seq<Instr>, pc: nat, q: nat, st: State, stk: seq<nat>, ss: seq<Saved>)
    requires Loaded(m, x) && Safe(m, x, Greedy(pc, q, st, stk, ss))
    ensures Safe(m, x, Step(m, Greedy(pc, q, st, stk, ss)))
  {
    hide Loaded, Decode, Place, Entries, Iterated, RunSimple, LeaveGreedy, Forward, ToI32, Iterates, Exec, Backtrack;
    var i := FetchAt(m, x, pc, |stk|);
    var p := RunSimple(m, pc + 17, st.pos);
    if p.None? {
      LeaveSafe(m, x, pc, i, q, st, stk, ss);
    } else {
      IterationReads(m, pc + 17, i.len, st.pos);
      IterateOnce(m.env.text, st.pos, i.len, q);
      var st1 := st.(pos := p.value);
      assert InText(m.env, st1);
      LeaveSafe(m, x, pc, i, q + 1, st1, stk, ss);
    }
  }

  lemma IterationReads(m: Machine, pc: nat, len: nat, p: nat)
    requires Iterates(m, pc, len) && p <= |m.env.text.units| && RunSimple(m, pc, p).Some?
    ensures Forward(m.env.text, p, len) == RunSimple(m, pc, p)
  {
  }

  /** Failure resumes a choice point or gives back one iteration. */
  lemma BacktrackSafe(m: Machine, x: seq<Instr>, top: Saved, rest: seq<Saved>)
    requires Loaded(m, x) && Entry(m, x, top) && Entries(m, x, rest)
    ensures Safe(m, x, Backtrack(m, top, rest))
  {
    hide Loaded, Decode, Place, Entries, ToI32, Iterates, Boundary, Backward;
    if top.kind.GreedyPoint? {
      var i := FetchAt(m, x, top.pc, |top.stk|);
      var p := Backward(m.env.text, top.pos, i.len).value;
      GiveOneBack(m, x, rest, top, p);
    }
  }

  lemma GiveOneBack(m: Machine, x: seq<Instr>, rest: seq<Saved>, top: Saved, p: nat)
    requires Entries(m, x, rest) && Entry(m, x, top) && top.kind.GreedyPoint?
    requires p <= top.pos && CanGiveBack(m.env.text, p, Decode(m.bc, top.pc).value.len, top.count - 1)
    ensures InText(m.env, State(p, top.caps))
    ensures top.count > 1 ==> Entries(m, x, rest + [top.(pos := p, count := top.count - 1)])
  {
    hide Place, Decode, CanGiveBack;
    if top.count > 1 {
      PushEntry(m, x, rest, top.(pos := p, count := top.count - 1));
    }
  }

  /** Every step keeps the state safe. */
  lemma StepSafe(m: Machine, x: seq<Instr>, c: Config)
    requires Loaded(m, x) && Safe(m, x, c)
    ensures Safe(m, x, Step(m, c))
  {
    hide Loaded, Place, Entries, Iterated, Exec, Backtrack;
    match c
    case Run(pc, st, stk, ss) => ExecSafe(m, x, pc, st, stk, ss);
    case Greedy(pc, q, st, stk, ss) => GreedySafe(m, x, pc, q, st, stk, ss);
    case Fail(ss) =>
      if ss != [] {
        PopEntry(m, x, ss);
        BacktrackSafe(m, x, Last(ss), Front(ss));
      }
    case Accept(caps, ss) =>
      if ss != [] {
        PopEntry(m, x, ss);
      }
    case _ =>
  }

  lemma {:induction false} RunStaysSafe(m: Machine, x: seq<Instr>, c: Config, k: nat)
    requires Loaded(m, x) && Safe(m, x, c)
    ensures Safe(m, x, Iterate(m, k, c))
    decreases k
  {
    hide Loaded, Safe, Step;
    if k > 0 {
      StepSafe(m, x, c);
      RunStaysSafe(m, x, Step(m, c), k - 1);
    }
  }

  lemma EntriesSaved(m: Machine, x: seq<Instr>, ss: seq<Saved>)
    requires Loaded(m, x) && Entries(m, x, ss)
    ensures SavedOk(m.bc, ss)
  {
    hide Loaded, Place, AtDepth, InText, CanGiveBack, Decode;
    forall k | 0 <= k < |ss|
      ensures AtDepth(m.bc, ss[k].pc, |ss[k].stk|)
    {
      PlaceDepth(m, x, ss[k].pc, |ss[k].stk|);
    }
  }

  lemma SafeIsOk(m: Machine, x: seq<Instr>, c: Config)
    requires Loaded(m, x) && Safe(m, x, c)
    ensures Ok(m, c)
  {
    hide Loaded, Place, AtDepth, InText, Iterated, Decode, Entries, SavedOk;
    match c
    case Run(pc, st, stk, ss) => PlaceDepth(m, x, pc, |stk|); EntriesSaved(m, x, ss);
    case Greedy(pc, q, st, stk, ss) => PlaceDepth(m, x, pc, |stk|); EntriesSaved(m, x, ss);
    case Fail(ss) => EntriesSaved(m, x, ss);
    case Accept(_, ss) => EntriesSaved(m, x, ss);
    case _ =>
  }

  lemma StartSafe(m: Machine, x: seq<Instr>, p: nat)
    requires Loaded(m, x) && p <= |m.env.text.units|
    ensures Safe(m, x, Start(m.env, p))
  {
    hide Loaded;
    LenNothing();
    assert x[..0] == [] && DepthAfter([], 0) == Some(0);
    assert Place(x, 0, 0);
  }

  /** Safety of every run, from every start index: no reachable state is stuck, all positions lie in the text, the
      depth of the stack is the one the linear scan assigns to the program counter, and no stack, current or saved,
      exceeds the maximum the compiler stores in the header. From a character boundary the run ends. */
  lemma RunSafe(m: Machine, n: Node, sticky: bool, p: nat, k: nat)
    requires Compiled(m, n, sticky) && p <= |m.env.text.units|
    ensures ValidNode(n) && 1 + Groups(n) <= 0x100
    ensures Ok(m, Iterate(m, k, Start(m.env, p)))
    ensures Safe(m, Inner(m.env.flags, n, sticky), Iterate(m, k, Start(m.env, p)))
    ensures StacksWithin(Iterate(m, k, Start(m.env, p)), MaxDepth(ProgramCode(m.env.flags, n, sticky), 0, 0))
    ensures Boundary(m.env.text, p) ==> exists j: nat :: Iterate(m, j, Start(m.env, p)).Halt?
  {
    hide Code, CodeAt, Ok, Step, MaxDepth, ProgramCode, Outcomes, Loaded, Safe, Boundary, StacksWithin, Inner;
    ProgramLoaded(m, n, sticky);
    var x := Inner(m.env.flags, n, sticky);
    StartSafe(m, x, p);
    RunStaysSafe(m, x, Start(m.env, p), k);
    SafeIsOk(m, x, Iterate(m, k, Start(m.env, p)));
    CompiledParts(m, n, sticky);
    ProgramLayout(m, n, sticky);
    ProgramLen(m, n, sticky);
    OkWithin(m, ProgramCode(m.env.flags, n, sticky), Iterate(m, k, Start(m.env, p)));
    if Boundary(m.env.text, p) {
      RunEnds(m, n, sticky, p);
    }
  }

  lemma ProgramLen(m: Machine, n: Node, sticky: bool)
    requires Compiled(m, n, sticky)
    ensures ValidNode(n) && 1 + Groups(n) <= 0x100
    ensures |m.bc| == Len(ProgramCode(m.env.flags, n, sticky))
  {
    hide ProgramCode, ValidNode, Groups, Len;
  }
}
