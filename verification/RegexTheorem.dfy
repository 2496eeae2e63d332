/** The main theorem about the regular-expression engine: running a compiled pattern gives the
    first match of the reference semantics. */
module RegexTheorem {
  import opened Bytes
  import opened RegexCode
  import opened RegexText
  import opened RegexSyntax
  import opened RegexReference
  import opened RegexMachine
  import opened RegexAnalysis
  import opened RegexSimple
  import opened RegexDepth
  import opened RegexFragments
  import opened RegexLoops
  import opened RegexGreedy
  import opened RegexCorrect

  // ---- lookaround ----

  /** A `match` discards the choice points above the lookaround's own entry. */
  lemma {:induction false} AcceptUnwinds(m: Machine, caps: Captures, ss: seq<Saved>, extra: seq<Saved>)
    requires AllChoices(extra) && SavedOk(m.bc, ss + extra)
    ensures Reach(m, Accept(caps, ss + extra), Accept(caps, ss))
    decreases |extra|
  {
    hide AtDepth;
    if extra == [] {
      assert ss + extra == ss;
      ReachSelf(m, Accept(caps, ss));
    } else {
      var all := ss + extra;
      var rest := extra[..|extra| - 1];
      assert Front(all) == ss + rest && Last(all) == Last(extra);
      assert !Last(extra).kind.LookPoint?;
      AcceptUnwinds(m, caps, ss, rest);
      assert Step(m, Accept(caps, all)) == Accept(caps, ss + rest);
      ReachStep(m, Accept(caps, all), Accept(caps, ss));
    }
  }

  function LookEntry(neg: bool, pc: nat, s: State, stk: seq<nat>): (r: Saved) {
    Saved(LookPoint(neg), pc, s.pos, s.caps, stk, 0)
  }

  lemma LookSteps(m: Machine, neg: bool, end: nat, s: State, stk: seq<nat>, ss: seq<Saved>, caps: Captures)
    ensures var ss1 := ss + [LookEntry(neg, end, s, stk)];
      && Step(m, Fail(ss1)) == (if neg then Run(end, s, stk, ss) else Fail(ss))
      && Step(m, Accept(caps, ss1)) == (if neg then Fail(ss) else Run(end, State(s.pos, caps), stk, ss))
  {
    var ss1 := ss + [LookEntry(neg, end, s, stk)];
    assert Front(ss1) == ss && Last(ss1) == LookEntry(neg, end, s, stk);
  }

  lemma LookStart(m: Machine, neg: bool, off: u32, pc: nat, end: nat, s: State, stk: seq<nat>, ss: seq<Saved>)
    requires Decode(m.bc, pc) == Some(Instr.Look(neg, off)) && end == pc + 5 + ToI32(off)
    requires s.pos <= |m.env.text.units|
    ensures Step(m, Run(pc, s, stk, ss)) == Run(pc + 5, s, stk, ss + [LookEntry(neg, end, s, stk)])
  {
    hide Decode;
  }

  lemma MatchStep(m: Machine, pc: nat, s: State, stk: seq<nat>, ss: seq<Saved>)
    requires Decode(m.bc, pc) == Some(Instr.Match) && s.pos <= |m.env.text.units|
    ensures Step(m, Run(pc, s, stk, ss)) == Accept(s.caps, ss)
  {
    hide Decode;
  }

  /** The body is run above the lookaround's entry and its result decided there: atomically. */
  lemma LookYields(m: Machine, neg: bool, off: u32, pc: nat, pm: nat, s: State, stk: seq<nat>, rs: seq<State>, ss: seq<Saved>)
    requires Decode(m.bc, pc) == Some(Instr.Look(neg, off)) && pm + 1 == pc + 5 + ToI32(off)
    requires Decode(m.bc, pm) == Some(Instr.Match)
    requires AtDepth(m.bc, pc, |stk|) && AtDepth(m.bc, pc + 5, |stk|) && AtDepth(m.bc, pm + 1, |stk|)
    requires s.pos <= |m.env.text.units| && SavedOk(m.bc, ss)
    requires rs != [] ==> rs[0].pos <= |m.env.text.units|
    requires Does(m, pc + 5, stk, s, pm, stk, rs)
    ensures Yields(m, ss, Run(pc, s, stk, ss), pm + 1, stk, LookOutcomes(neg, s, rs))
  {
    hide Decode, AtDepth, Step, Reach;
    var end := pm + 1;
    var ss1 := ss + [LookEntry(neg, end, s, stk)];
    var start, body := Run(pc, s, stk, ss), Run(pc + 5, s, stk, ss1);
    LookStart(m, neg, off, pc, end, s, stk, ss);
    assert SavedOk(m.bc, ss1);
    assert Yields(m, ss1, body, pm, stk, rs);
    ReachOne(m, start);
    var outs := LookOutcomes(neg, s, rs);
    if rs == [] {
      LookSteps(m, neg, end, s, stk, ss, s.caps);
      ReachOne(m, Fail(ss1));
      LookResult(m, neg, s, end, stk, ss, s.caps, true);
      YieldsAfter(m, ss, Fail(ss1), Step(m, Fail(ss1)), end, stk, outs);
      YieldsAfter(m, ss, body, Fail(ss1), end, stk, outs);
    } else {
      var extra :| AllChoices(extra) && Reach(m, body, Run(pm, rs[0], stk, ss1 + extra));
      var found := Run(pm, rs[0], stk, ss1 + extra);
      ReachOk(m, body, found);
      var caps := rs[0].caps;
      MatchStep(m, pm, rs[0], stk, ss1 + extra);
      AcceptUnwinds(m, caps, ss1, extra);
      ReachStep(m, found, Accept(caps, ss1));
      LookSteps(m, neg, end, s, stk, ss, caps);
      ReachOne(m, Accept(caps, ss1));
      LookResult(m, neg, s, end, stk, ss, caps, false);
      YieldsAfter(m, ss, Accept(caps, ss1), Step(m, Accept(caps, ss1)), end, stk, outs);
      YieldsAfter(m, ss, found, Accept(caps, ss1), end, stk, outs);
      YieldsAfter(m, ss, body, found, end, stk, outs);
    }
    YieldsAfter(m, ss, start, body, end, stk, outs);
  }

  lemma LookResult(m: Machine, neg: bool, s: State, end: nat, stk: seq<nat>, ss: seq<Saved>, caps: Captures, failed: bool)
    requires AtDepth(m.bc, end, |stk|) && SavedOk(m.bc, ss)
    ensures failed == neg ==> var r := if neg then s else State(s.pos, caps);
      Yields(m, ss, Run(end, r, stk, ss), end, stk, [r])
    ensures failed != neg ==> Yields(m, ss, Fail(ss), end, stk, [])
  {
    hide AtDepth, Yields;
    if failed == neg {
      YieldsHere(m, ss, end, stk, if neg then s else State(s.pos, caps));
    } else {
      YieldsNothing(m, ss, end, stk);
    }
  }

  // ---- the cases of the induction ----

  /** What the induction proves of a pattern at one address. */
  ghost predicate Fits(m: Machine, n: Node, back: bool, cc: nat, pc: nat) {
    && ValidNode(n) && cc + Groups(n) <= m.env.captureCount <= 0x100
    && CodeAt(m.bc, pc, Code(m.env.flags, n, back, cc))
    && Len(Code(m.env.flags, n, back, cc)) < 0x8000_0000
  }

  lemma LeafDoes(m: Machine, n: Node, back: bool, cc: nat, pc: nat, s: State, stk: seq<nat>)
    requires Fits(m, n, back, cc, pc) && ValidState(m.env, s) && AtDepth(m.bc, pc, |stk|)
    requires !n.Cat? && !n.Alt? && !n.Capture? && !n.Look? && !n.Quant?
    ensures Does(m, pc, stk, s, pc + Len(Code(m.env.flags, n, back, cc)), stk, Matches(m.env, n, back, cc, s))
  {
    hide ValidState, Does, AtDepth, Decode;
    if n.Char? || n.AnyChar? || n.Class? {
      CharDoes(m, n, back, cc, pc, s, stk);
    } else if n.Empty? {
      DoesHere(m, pc, stk, s);
    } else {
      SingleDoes(m, n, back, cc, pc, s, stk);
    }
  }

  /** The patterns of one instruction that reads no character by itself. */
  lemma SingleDoes(m: Machine, n: Node, back: bool, cc: nat, pc: nat, s: State, stk: seq<nat>)
    requires Fits(m, n, back, cc, pc) && ValidState(m.env, s) && AtDepth(m.bc, pc, |stk|)
    requires n.LineStart? || n.LineEnd? || n.WordBoundary? || n.BackRef?
    ensures Does(m, pc, stk, s, pc + Len(Code(m.env.flags, n, back, cc)), stk, Matches(m.env, n, back, cc, s))
  {
    hide Decode, AtDepth, Does, Moves, Dies, MatchBackRef, AtLineStart, AtLineEnd, AtWordBoundary, ValidState, Balanced,
      MatchChar, MatchesAll, Repeat, OptionalAll, SaveAll;
    var code := Code(m.env.flags, n, back, cc);
    CodeBalanced(m.env.flags, n, back, cc);
    BalancedPast(m.bc, pc, code, |stk|);
    StatePos(m.env, s);
    OneInstr(m.bc, pc, code[0]);
    if n.BackRef? {
      BackRefStep(m, back, n.idx, pc, s, stk);
    } else {
      AssertionStep(m, code[0], pc, s, stk);
    }
    DoesMoveOrFail(m, pc, stk, s, pc + Len(code), Matches(m.env, n, back, cc, s));
  }

  lemma OneInstr(bc: seq<u8>, pc: nat, i: Instr)
    requires CodeAt(bc, pc, [i])
    ensures Decode(bc, pc) == Some(i) && Len([i]) == Size(i)
  {
    hide Decode, Size;
    assert [i][1..] == [];
  }

  lemma CharDoes(m: Machine, n: Node, back: bool, cc: nat, pc: nat, s: State, stk: seq<nat>)
    requires Fits(m, n, back, cc, pc) && ValidState(m.env, s) && AtDepth(m.bc, pc, |stk|)
    requires n.Char? || n.AnyChar? || n.Class?
    ensures Does(m, pc, stk, s, pc + Len(Code(m.env.flags, n, back, cc)), stk, Matches(m.env, n, back, cc, s))
  {
    hide Decode, AtDepth, Does, Moves, Dies, MatchChar, ClassInstr, LiteralInstr, CharInstrOf, ValidState, Size, StackDelta, Balanced;
    var i := CharInstrOf(m.env.flags, n);
    var code := CharCode(back, i);
    CharInstrCode2(m.env.flags, n, back, cc);
    CodeBalanced(m.env.flags, n, back, cc);
    BalancedPast(m.bc, pc, code, |stk|);
    CharNoDelta(i);
    if back {
      assert code == [Instr.Prev] + [i] + [Instr.Prev];
      BracketAt(m.bc, pc, Instr.Prev, [i], Instr.Prev);
      LenBracket(Instr.Prev, [i], Instr.Prev);
      OneInstr(m.bc, pc + Size(Instr.Prev), i);
      NoDelta(Instr.Prev);
      PrevSize();
      DepthNext(m.bc, pc, |stk|, Instr.Prev);
      DepthNext(m.bc, pc + 1, |stk|, i);
      BackwardCharDoes(m, n, pc, s, stk);
    } else {
      OneInstr(m.bc, pc, i);
      CharStep(m, n, pc, s, stk);
      DoesMoveOrFail(m, pc, stk, s, pc + Len(code), MatchChar(m.env, n, back, s));
    }
  }

  lemma PrevSize()
    ensures Size(Instr.Prev) == 1
  {
  }

  lemma CharNoDelta(i: Instr)
    requires IsCharInstr(i)
    ensures StackDelta(i) == 0
  {
  }

  lemma CharInstrCode2(f: Flags, n: Node, back: bool, cc: nat)
    requires n.Char? || n.AnyChar? || n.Class?
    requires ValidNode(n) && cc <= 0x100
    ensures Code(f, n, back, cc) == CharCode(back, CharInstrOf(f, n))
  {
    CharInstrCode(f, n, back, cc);
  }

  /** First the code of `a`, then that of `b`. */
  lemma SequenceDoes(m: Machine, a: Node, ccA: nat, b: Node, ccB: nat, back: bool, pc: nat, s: State, stk: seq<nat>)
    requires ValidNode(a) && ccA + Groups(a) <= m.env.captureCount <= 0x100
    requires ValidNode(b) && ccB + Groups(b) <= m.env.captureCount
    requires ValidState(m.env, s) && AtDepth(m.bc, pc, |stk|)
    requires Runs(m, a, back, ccA, pc)
    requires CodeAt(m.bc, pc, Code(m.env.flags, a, back, ccA))
    requires Runs(m, b, back, ccB, pc + Len(Code(m.env.flags, a, back, ccA)))
    ensures Does(m, pc, stk, s, pc + Len(Code(m.env.flags, a, back, ccA)) + Len(Code(m.env.flags, b, back, ccB)), stk,
      MatchesAll(m.env, b, back, ccB, s.pos, Matches(m.env, a, back, ccA, s)))
  {
    hide Matches, Code, AtDepth, Does, Len, ValidNode, Runs, CodeAt, MatchesAll, Balanced;
    var e := m.env;
    var ca := Code(e.flags, a, back, ccA);
    var mid := pc + Len(ca);
    var end := mid + Len(Code(e.flags, b, back, ccB));
    CodeBalanced(e.flags, a, back, ccA);
    BalancedPast(m.bc, pc, ca, |stk|);
    RunsAt(m, a, back, ccA, pc, s, stk);
    var rs := Matches(e, a, back, ccA, s);
    var next := MatchLists(e, b, back, ccB, s.pos, rs);
    forall i | 0 <= i < |rs| ensures Does(m, mid, stk, rs[i], end, stk, next[i]) {
      assert ValidState(e, rs[i]);
      RunsAt(m, b, back, ccB, mid, rs[i], stk);
    }
    DoesThen(m, pc, stk, s, mid, stk, rs, end, stk, next);
    MatchesAllFlatten(e, b, back, ccB, s.pos, rs);
  }

  lemma CatParts(m: Machine, n: Node, back: bool, cc: nat, pc: nat)
    requires n.Cat? && Fits(m, n, back, cc, pc)
    ensures Nodes(n.first) < Nodes(n) && Nodes(n.second) < Nodes(n)
    ensures var a, b, ccB := n.first, n.second, cc + Groups(n.first);
      && ValidNode(a) && ValidNode(b) && Groups(n) == Groups(a) + Groups(b)
      && var ca, cb := Code(m.env.flags, a, back, cc), Code(m.env.flags, b, back, ccB);
      && Len(Code(m.env.flags, n, back, cc)) == Len(ca) + Len(cb)
      && Fits(m, a, back, cc, if back then pc + Len(cb) else pc)
      && Fits(m, b, back, ccB, if back then pc else pc + Len(ca))
  {
    hide CodeAt, Len, Code, ValidNode, Groups, Nodes;
    CatUnfold(m.env.flags, n, back, cc);
    var a, b, ccB := n.first, n.second, cc + Groups(n.first);
    var ca, cb := Code(m.env.flags, a, back, cc), Code(m.env.flags, b, back, ccB);
    if back {
      LenConcat(cb, ca);
      CodeAtConcat(m.bc, pc, cb, ca);
    } else {
      LenConcat(ca, cb);
      CodeAtConcat(m.bc, pc, ca, cb);
    }
  }

  lemma CatRuns(m: Machine, n: Node, back: bool, cc: nat, pc: nat)
    requires n.Cat? && Fits(m, n, back, cc, pc)
    ensures Runs(m, n, back, cc, pc)
    decreases Nodes(n), 0
  {
    hide Code, CodeAt, Does, AtDepth, ValidState, Runs, Len, MatchesAll, Matches, ValidNode, Groups, Nodes;
    var f := m.env.flags;
    var a, b, ccB := n.first, n.second, cc + Groups(n.first);
    CatParts(m, n, back, cc, pc);
    var ca, cb := Code(f, a, back, cc), Code(f, b, back, ccB);
    NodeRuns(m, a, back, cc, if back then pc + Len(cb) else pc);
    NodeRuns(m, b, back, ccB, if back then pc else pc + Len(ca));
    forall s, stk | ValidState(m.env, s) && AtDepth(m.bc, pc, |stk|)
      ensures Does(m, pc, stk, s, pc + Len(Code(f, n, back, cc)), stk, Matches(m.env, n, back, cc, s))
    {
      CatMatches(m.env, n, back, cc, s);
      if back {
        SequenceDoes(m, b, ccB, a, cc, back, pc, s, stk);
      } else {
        SequenceDoes(m, a, cc, b, ccB, back, pc, s, stk);
      }
    }
    RunsIntro(m, n, back, cc, pc);
  }

  lemma RunsIntro(m: Machine, n: Node, back: bool, cc: nat, pc: nat)
    requires ValidNode(n) && cc + Groups(n) <= m.env.captureCount <= 0x100
    requires forall s, stk | ValidState(m.env, s) && AtDepth(m.bc, pc, |stk|) ::
      Does(m, pc, stk, s, pc + Len(Code(m.env.flags, n, back, cc)), stk, Matches(m.env, n, back, cc, s))
    ensures Runs(m, n, back, cc, pc)
  {
    hide Code, Does, AtDepth, ValidState, Len, Matches, ValidNode, Groups;
  }

  lemma AltLayout(bc: seq<u8>, pc: nat, ca: seq<Instr>, cb: seq<Instr>)
    requires CodeAt(bc, pc, [Instr.Split(true, ToU32(Len(ca) + 5))] + ca + [Instr.Goto(ToU32(Len(cb)))] + cb)
    ensures Decode(bc, pc) == Some(Instr.Split(true, ToU32(Len(ca) + 5)))
    ensures CodeAt(bc, pc + 5, ca)
    ensures Decode(bc, pc + 5 + Len(ca)) == Some(Instr.Goto(ToU32(Len(cb))))
    ensures CodeAt(bc, pc + 10 + Len(ca), cb)
    ensures Len([Instr.Split(true, ToU32(Len(ca) + 5))] + ca + [Instr.Goto(ToU32(Len(cb)))] + cb) == 10 + Len(ca) + Len(cb)
  {
    hide Decode, CodeAt, Len, ToU32;
    var split, goto := Instr.Split(true, ToU32(Len(ca) + 5)), Instr.Goto(ToU32(Len(cb)));
    CodeAtConcat(bc, pc, [split] + ca + [goto], cb);
    LenConcat([split] + ca + [goto], cb);
    LenBracket(split, ca, goto);
    BracketAt(bc, pc, split, ca, goto);
  }

  lemma AltDoes(m: Machine, a: Node, b: Node, back: bool, cc: nat, pc: nat, s: State, stk: seq<nat>)
    requires ValidNode(a) && ValidNode(b) && cc + Groups(a) + Groups(b) <= m.env.captureCount <= 0x100
    requires ValidState(m.env, s) && AtDepth(m.bc, pc, |stk|)
    requires var f := m.env.flags;
      var ca, cb := Code(f, a, back, cc), Code(f, b, back, cc + Groups(a));
      && Len(ca) + Len(cb) + 10 < 0x8000_0000
      && Decode(m.bc, pc) == Some(Instr.Split(true, ToU32(Len(ca) + 5)))
      && Decode(m.bc, pc + 5 + Len(ca)) == Some(Instr.Goto(ToU32(Len(cb))))
      && CodeAt(m.bc, pc + 5, ca) && CodeAt(m.bc, pc + 10 + Len(ca), cb)
      && Runs(m, a, back, cc, pc + 5) && Runs(m, b, back, cc + Groups(a), pc + 10 + Len(ca))
    ensures Does(m, pc, stk, s,
      pc + 10 + Len(Code(m.env.flags, a, back, cc)) + Len(Code(m.env.flags, b, back, cc + Groups(a))), stk,
      Matches(m.env, a, back, cc, s) + Matches(m.env, b, back, cc + Groups(a), s))
  {
    hide Matches, Code, AtDepth, Does, Len, ValidNode, Runs, CodeAt, Decode, ValidState, ToU32, Balanced, Moves;
    var e := m.env;
    var ca, cb := Code(e.flags, a, back, cc), Code(e.flags, b, back, cc + Groups(a));
    var pg, pb, end := pc + 5 + Len(ca), pc + 10 + Len(ca), pc + 10 + Len(ca) + Len(cb);
    CodeBalanced(e.flags, a, back, cc);
    CodeBalanced(e.flags, b, back, cc + Groups(a));
    DepthNext(m.bc, pc, |stk|, Instr.Split(true, ToU32(Len(ca) + 5)));
    BalancedPast(m.bc, pc + 5, ca, |stk|);
    DepthNext(m.bc, pg, |stk|, Instr.Goto(ToU32(Len(cb))));
    BalancedPast(m.bc, pb, cb, |stk|);
    JumpAhead(Len(ca) + 5);
    JumpAhead(Len(cb));
    RunsAt(m, a, back, cc, pc + 5, s, stk);
    RunsAt(m, b, back, cc + Groups(a), pb, s, stk);
    var rs := Matches(e, a, back, cc, s);
    var next := seq(|rs|, i requires 0 <= i < |rs| => [rs[i]]);
    forall i | 0 <= i < |rs| ensures Does(m, pg, stk, rs[i], end, stk, next[i]) {
      assert ValidState(e, rs[i]);
      StatePos(e, rs[i]);
      MovesGoto(m, pg, stk, rs[i], ToU32(Len(cb)));
      DoesMove(m, pg, stk, rs[i], end, stk, rs[i]);
    }
    DoesThen(m, pc + 5, stk, s, pg, stk, rs, end, stk, next);
    FlattenSingles(rs);
    StatePos(e, s);
    DoesSplit(m, pc, stk, s, true, ToU32(Len(ca) + 5), pb, end, stk, rs, Matches(e, b, back, cc + Groups(a), s));
  }

  lemma AltParts(m: Machine, n: Node, back: bool, cc: nat, pc: nat)
    requires n.Alt? && Fits(m, n, back, cc, pc)
    ensures Nodes(n.left) < Nodes(n) && Nodes(n.right) < Nodes(n)
    ensures var a, b, ccB := n.left, n.right, cc + Groups(n.left);
      && ValidNode(a) && ValidNode(b) && Groups(n) == Groups(a) + Groups(b)
      && var ca, cb := Code(m.env.flags, a, back, cc), Code(m.env.flags, b, back, ccB);
      && Len(Code(m.env.flags, n, back, cc)) == 10 + Len(ca) + Len(cb)
      && Fits(m, a, back, cc, pc + 5) && Fits(m, b, back, ccB, pc + 10 + Len(ca))
      && Decode(m.bc, pc) == Some(Instr.Split(true, ToU32(Len(ca) + 5)))
      && Decode(m.bc, pc + 5 + Len(ca)) == Some(Instr.Goto(ToU32(Len(cb))))
  {
    hide CodeAt, Len, Decode, ToU32, Code, ValidNode, Groups, Nodes;
    AltUnfold(m.env.flags, n, back, cc);
    AltLayout(m.bc, pc, Code(m.env.flags, n.left, back, cc), Code(m.env.flags, n.right, back, cc + Groups(n.left)));
  }

  lemma AltRuns(m: Machine, n: Node, back: bool, cc: nat, pc: nat)
    requires n.Alt? && Fits(m, n, back, cc, pc)
    ensures Runs(m, n, back, cc, pc)
    decreases Nodes(n), 0
  {
    hide Code, CodeAt, Does, AtDepth, ValidState, Runs, Len, Decode, ToU32, Matches, ValidNode, Groups, Nodes;
    var f := m.env.flags;
    var a, b, ccB := n.left, n.right, cc + Groups(n.left);
    AltParts(m, n, back, cc, pc);
    NodeRuns(m, a, back, cc, pc + 5);
    NodeRuns(m, b, back, ccB, pc + 10 + Len(Code(f, a, back, cc)));
    forall s, stk | ValidState(m.env, s) && AtDepth(m.bc, pc, |stk|)
      ensures Does(m, pc, stk, s, pc + Len(Code(f, n, back, cc)), stk, Matches(m.env, n, back, cc, s))
    {
      AltMatches(m.env, n, back, cc, s);
      AltDoes(m, a, b, back, cc, pc, s, stk);
    }
    RunsIntro(m, n, back, cc, pc);
  }

  lemma CaptureDoes(m: Machine, a: Node, back: bool, cc: nat, pc: nat, s: State, stk: seq<nat>)
    requires ValidNode(a) && cc + 1 + Groups(a) <= m.env.captureCount <= 0x100
    requires ValidState(m.env, s) && AtDepth(m.bc, pc, |stk|)
    requires var ca := Code(m.env.flags, a, back, cc + 1);
      && Decode(m.bc, pc) == Some(Instr.Save(back, cc)) && CodeAt(m.bc, pc + 2, ca)
      && Decode(m.bc, pc + 2 + Len(ca)) == Some(Instr.Save(!back, cc))
      && Runs(m, a, back, cc + 1, pc + 2)
    ensures ValidState(m.env, SaveSlot(s, 2 * cc + if back then 1 else 0))
    ensures Does(m, pc, stk, s, pc + 4 + Len(Code(m.env.flags, a, back, cc + 1)), stk,
      SaveAll(Matches(m.env, a, back, cc + 1, SaveSlot(s, 2 * cc + if back then 1 else 0)), 2 * cc + if back then 0 else 1))
  {
    hide Matches, Code, AtDepth, Does, Len, ValidNode, Runs, CodeAt, Decode, Balanced, Moves;
    var e := m.env;
    var ca := Code(e.flags, a, back, cc + 1);
    var ps, end := pc + 2 + Len(ca), pc + 4 + Len(ca);
    var slot := 2 * cc + if back then 0 else 1;
    var s1 := SaveSlot(s, 2 * cc + if back then 1 else 0);
    SaveValid(e, s, 2 * cc + if back then 1 else 0);
    CodeBalanced(e.flags, a, back, cc + 1);
    DepthNext(m.bc, pc, |stk|, Instr.Save(back, cc));
    BalancedPast(m.bc, pc + 2, ca, |stk|);
    DepthNext(m.bc, ps, |stk|, Instr.Save(!back, cc));
    RunsAt(m, a, back, cc + 1, pc + 2, s1, stk);
    var rs := Matches(e, a, back, cc + 1, s1);
    var next := seq(|rs|, i requires 0 <= i < |rs| => assert ValidState(e, rs[i]); [SaveSlot(rs[i], slot)]);
    forall i | 0 <= i < |rs| ensures Does(m, ps, stk, rs[i], end, stk, next[i]) {
      assert ValidState(e, rs[i]);
      SaveStep(m, ps, !back, cc, rs[i], stk);
      DoesMove(m, ps, stk, rs[i], end, stk, SaveSlot(rs[i], slot));
    }
    DoesThen(m, pc + 2, stk, s1, ps, stk, rs, end, stk, next);
    FlattenSingles(SaveAll(rs, slot));
    assert next == seq(|rs|, i requires 0 <= i < |rs| => [SaveAll(rs, slot)[i]]);
    SaveStep(m, pc, back, cc, s, stk);
    DoesAfterMove(m, pc, stk, s, pc + 2, stk, s1, end, stk, SaveAll(rs, slot));
  }

  lemma CaptureParts(m: Machine, n: Node, back: bool, cc: nat, pc: nat)
    requires n.Capture? && Fits(m, n, back, cc, pc)
    ensures Nodes(n.body) < Nodes(n) && ValidNode(n.body) && Groups(n) == 1 + Groups(n.body)
    ensures var ca := Code(m.env.flags, n.body, back, cc + 1);
      && Len(Code(m.env.flags, n, back, cc)) == 4 + Len(ca)
      && Fits(m, n.body, back, cc + 1, pc + 2)
      && Decode(m.bc, pc) == Some(Instr.Save(back, cc))
      && Decode(m.bc, pc + 2 + Len(ca)) == Some(Instr.Save(!back, cc))
  {
    hide CodeAt, Len, Decode;
    BracketAt(m.bc, pc, Instr.Save(back, cc), Code(m.env.flags, n.body, back, cc + 1), Instr.Save(!back, cc));
    LenBracket(Instr.Save(back, cc), Code(m.env.flags, n.body, back, cc + 1), Instr.Save(!back, cc));
  }

  lemma CaptureMatches(e: Env, n: Node, back: bool, cc: nat, s: State)
    requires n.Capture? && ValidNode(n) && cc + Groups(n) <= e.captureCount && ValidState(e, s)
    requires ValidNode(n.body) && Groups(n) == 1 + Groups(n.body)
    ensures ValidState(e, SaveSlot(s, 2 * cc + if back then 1 else 0))
    ensures Matches(e, n, back, cc, s)
         == SaveAll(Matches(e, n.body, back, cc + 1, SaveSlot(s, 2 * cc + if back then 1 else 0)),
              2 * cc + if back then 0 else 1)
  {
    SaveValid(e, s, 2 * cc + if back then 1 else 0);
  }

  lemma CaptureRuns(m: Machine, n: Node, back: bool, cc: nat, pc: nat)
    requires n.Capture? && Fits(m, n, back, cc, pc)
    ensures Runs(m, n, back, cc, pc)
    decreases Nodes(n), 0
  {
    hide Code, CodeAt, Does, AtDepth, ValidState, Runs, Len, Decode, Matches, ValidNode, Groups, Nodes;
    var f := m.env.flags;
    CaptureParts(m, n, back, cc, pc);
    NodeRuns(m, n.body, back, cc + 1, pc + 2);
    forall s, stk | ValidState(m.env, s) && AtDepth(m.bc, pc, |stk|)
      ensures Does(m, pc, stk, s, pc + Len(Code(f, n, back, cc)), stk, Matches(m.env, n, back, cc, s))
    {
      CaptureMatches(m.env, n, back, cc, s);
      CaptureDoes(m, n.body, back, cc, pc, s, stk);
    }
    RunsIntro(m, n, back, cc, pc);
  }

  lemma LookParts(m: Machine, n: Node, back: bool, cc: nat, pc: nat)
    requires n.Look? && Fits(m, n, back, cc, pc)
    ensures Nodes(n.body) < Nodes(n) && ValidNode(n.body) && Groups(n) == Groups(n.body)
    ensures var ca := Code(m.env.flags, n.body, n.behind, cc);
      && Len(Code(m.env.flags, n, back, cc)) == 6 + Len(ca)
      && Fits(m, n.body, n.behind, cc, pc + 5)
      && Decode(m.bc, pc) == Some(Instr.Look(n.neg, ToU32(Len(ca) + 1)))
      && Decode(m.bc, pc + 5 + Len(ca)) == Some(Instr.Match)
  {
    hide CodeAt, Len, Decode, ToU32;
    var ca := Code(m.env.flags, n.body, n.behind, cc);
    BracketAt(m.bc, pc, Instr.Look(n.neg, ToU32(Len(ca) + 1)), ca, Instr.Match);
    LenBracket(Instr.Look(n.neg, ToU32(Len(ca) + 1)), ca, Instr.Match);
  }

  lemma LookMatches(e: Env, n: Node, back: bool, cc: nat, s: State)
    requires n.Look? && ValidNode(n) && cc + Groups(n) <= e.captureCount && ValidState(e, s)
    requires ValidNode(n.body) && Groups(n) == Groups(n.body)
    ensures Matches(e, n, back, cc, s) == LookOutcomes(n.neg, s, Matches(e, n.body, n.behind, cc, s))
  {
  }

  lemma LookRuns(m: Machine, n: Node, back: bool, cc: nat, pc: nat)
    requires n.Look? && Fits(m, n, back, cc, pc)
    ensures Runs(m, n, back, cc, pc)
    decreases Nodes(n), 0
  {
    hide Code, CodeAt, Does, AtDepth, Runs, Len, Decode, ToU32, SavedOk, Balanced, Matches, ValidNode, Groups, Nodes,
      LookOutcomes, ValidState;
    var f := m.env.flags;
    var a := n.body;
    LookParts(m, n, back, cc, pc);
    var ca := Code(f, a, n.behind, cc);
    var off := ToU32(Len(ca) + 1);
    var pm := pc + 5 + Len(ca);
    JumpAhead(Len(ca) + 1);
    NodeRuns(m, a, n.behind, cc, pc + 5);
    CodeBalanced(f, a, n.behind, cc);
    forall s, stk | ValidState(m.env, s) && AtDepth(m.bc, pc, |stk|)
      ensures Does(m, pc, stk, s, pc + Len(Code(f, n, back, cc)), stk, Matches(m.env, n, back, cc, s))
    {
      LookMatches(m.env, n, back, cc, s);
      DepthNext(m.bc, pc, |stk|, Instr.Look(n.neg, off));
      BalancedPast(m.bc, pc + 5, ca, |stk|);
      DepthNext(m.bc, pm, |stk|, Instr.Match);
      RunsAt(m, a, n.behind, cc, pc + 5, s, stk);
      StatePos(m.env, s);
      FirstPos(m.env, n.behind, s.pos, Matches(m.env, a, n.behind, cc, s));
      LookDoes(m, n.neg, off, pc, pm, s, stk, Matches(m.env, a, n.behind, cc, s));
    }
    RunsIntro(m, n, back, cc, pc);
  }

  lemma FirstPos(e: Env, back: bool, from: nat, rs: seq<State>)
    requires AllFrom(e, back, from, rs)
    ensures rs != [] ==> rs[0].pos <= |e.text.units|
  {
  }

  lemma LookDoes(m: Machine, neg: bool, off: u32, pc: nat, pm: nat, s: State, stk: seq<nat>, rs: seq<State>)
    requires Decode(m.bc, pc) == Some(Instr.Look(neg, off)) && pm + 1 == pc + 5 + ToI32(off)
    requires Decode(m.bc, pm) == Some(Instr.Match)
    requires AtDepth(m.bc, pc, |stk|) && AtDepth(m.bc, pc + 5, |stk|) && AtDepth(m.bc, pm + 1, |stk|)
    requires s.pos <= |m.env.text.units| && (rs != [] ==> rs[0].pos <= |m.env.text.units|)
    requires Does(m, pc + 5, stk, s, pm, stk, rs)
    ensures Does(m, pc, stk, s, pm + 1, stk, LookOutcomes(neg, s, rs))
  {
    hide Decode, AtDepth, Yields, SavedOk, LookOutcomes;
    forall ss | SavedOk(m.bc, ss) ensures Yields(m, ss, Run(pc, s, stk, ss), pm + 1, stk, LookOutcomes(neg, s, rs)) {
      hide Does;
      LookYields(m, neg, off, pc, pm, s, stk, rs, ss);
    }
  }

  // ---- quantifiers ----

  /** The emission before the optional iterations: the reset, or the mandatory iterations. */
  function HeadCode(atom: seq<Instr>, min: u32, first: nat, groups: nat): (r: seq<Instr>)
    requires first + groups <= 0x100
  {
    if min == 0 then (if groups > 0 then [Instr.SaveReset(first, first + groups - 1)] else [])
    else if min == 1 then atom
    else TimesCode(atom, min)
  }

  /** The emission for the optional iterations. */
  function TailCode(atom: seq<Instr>, min: nat, max: nat, greedy: bool): (r: seq<Instr>)
    requires min <= max <= INFINITE
  {
    if max == INFINITE then StarCode(LoopBody(atom), greedy)
    else if max == min then []
    else if min == 0 && max == 1 then OptionCode(LoopBody(atom), greedy)
    else UpToCode(LoopBody(atom), max - min, greedy)
  }

  predicate IsFast(atom: seq<Instr>, max: nat, greedy: bool) { greedy && max > 0 && SimpleLen(atom) > 0 }

  predicate IsPlus(atom: seq<Instr>, min: nat, max: nat) {
    min == 1 && max == INFINITE && !NeedCheckAdvance(atom)
  }

  lemma QuantShape(atom: seq<Instr>, min: nat, max: nat, greedy: bool, first: nat, groups: nat)
    requires min <= max <= INFINITE && first + groups <= 0x100
    ensures QuantCode(atom, min, max, greedy, first, groups) ==
      if IsFast(atom, max, greedy) then GreedyCode(atom, min, max)
      else if IsPlus(atom, min, max) then PlusCode(atom, greedy)
      else HeadCode(atom, min, first, groups) + TailCode(atom, min, max, greedy)
  {
    hide SimpleLen, NeedCheckAdvance, LoopBody, StarCode, UpToCode, OptionCode, TimesCode, PlusCode, GreedyCode;
    if min == 1 && max == 1 {
      assert atom + [] == atom;
    }
  }

  /** Wherever its code is, the atom runs. */
  ghost predicate Anywhere(m: Machine, a: Node, back: bool, cc: nat)
    requires ValidNode(a) && cc + Groups(a) <= m.env.captureCount <= 0x100
  {
    Len(Code(m.env.flags, a, back, cc)) < 0x8000_0000 ==>
      forall p | CodeAt(m.bc, p, Code(m.env.flags, a, back, cc)) :: Runs(m, a, back, cc, p)
  }

  lemma BodyRunsAnywhere(m: Machine, a: Node, back: bool, cc: nat, pb: nat)
    requires ValidNode(a) && cc + Groups(a) <= m.env.captureCount <= 0x100 && Anywhere(m, a, back, cc)
    requires CodeAt(m.bc, pb, LoopBody(Code(m.env.flags, a, back, cc)))
    requires Len(LoopBody(Code(m.env.flags, a, back, cc))) < 0x8000_0000
    ensures BodyRuns(m, a, back, cc, pb)
    ensures Balanced(LoopBody(Code(m.env.flags, a, back, cc)))
  {
    hide Code, CodeAt, Runs, BodyRuns, Len, Decode, ValidNode, Groups, NeedCheckAdvance, Balanced, Size, Anywhere;
    var atom := Code(m.env.flags, a, back, cc);
    CodeBalanced(m.env.flags, a, back, cc);
    BalancedBody(atom);
    LenBody(atom);
    if NeedCheckAdvance(atom) {
      BracketAt(m.bc, pb, Instr.PushCharPos, atom, Instr.CheckAdvance);
      PushSize();
    }
    AnywhereAt(m, a, back, cc, AtomStart(atom, pb));
    BodyDoes(m, a, back, cc, pb);
  }

  lemma PushSize()
    ensures Size(Instr.PushCharPos) == 1
  {
  }

  lemma StarLayout(m: Machine, body: seq<Instr>, greedy: bool, h: nat, d: nat)
    requires CodeAt(m.bc, h, StarCode(body, greedy)) && Balanced(body) && AtDepth(m.bc, h, d)
    requires Len(StarCode(body, greedy)) < 0x8000_0000
    ensures CodeAt(m.bc, h + 5, body) && StarAt(m, Len(body), greedy, h, d)
    ensures Len(StarCode(body, greedy)) == Len(body) + 10
  {
    hide CodeAt, Len, Decode, AtDepth, ToU32, Behind, Balanced;
    var split, goto := Instr.Split(greedy, ToU32(Len(body) + 5)), Instr.Goto(Behind(Len(body) + 10));
    BracketAt(m.bc, h, split, body, goto);
    LenBracket(split, body, goto);
    DepthNext(m.bc, h, d, split);
    BalancedPast(m.bc, h + 5, body, d);
    DepthNext(m.bc, h + 5 + Len(body), d, goto);
  }

  lemma OptionLayout(m: Machine, body: seq<Instr>, greedy: bool, h: nat, d: nat)
    requires CodeAt(m.bc, h, OptionCode(body, greedy)) && Balanced(body) && AtDepth(m.bc, h, d)
    ensures CodeAt(m.bc, h + 5, body) && Len(OptionCode(body, greedy)) == Len(body) + 5
    ensures Decode(m.bc, h) == Some(Instr.Split(greedy, ToU32(Len(body))))
    ensures AtDepth(m.bc, h + 5, d) && AtDepth(m.bc, h + 5 + Len(body), d)
  {
    hide CodeAt, Len, Decode, AtDepth, ToU32, Balanced;
    var split := Instr.Split(greedy, ToU32(Len(body)));
    CodeAtConcat(m.bc, h, [split], body);
    OneInstr(m.bc, h, split);
    LenConcat([split], body);
    DepthNext(m.bc, h, d, split);
    BalancedPast(m.bc, h + 5, body, d);
  }

  lemma UpToLayout(m: Machine, body: seq<Instr>, k: u32, greedy: bool, pc: nat, d: nat)
    requires CodeAt(m.bc, pc, UpToCode(body, k, greedy)) && Balanced(body) && AtDepth(m.bc, pc, d)
    requires Len(UpToCode(body, k, greedy)) < 0x8000_0000
    ensures Decode(m.bc, pc) == Some(Instr.PushI32(k)) && CodeAt(m.bc, pc + 10, body)
    ensures UpToAt(m, Len(body), greedy, pc + 5, d)
    ensures Len(UpToCode(body, k, greedy)) == Len(body) + 16
  {
    hide CodeAt, Len, Decode, AtDepth, ToU32, Behind, Balanced;
    var push, split, loop := Instr.PushI32(k), Instr.Split(greedy, ToU32(Len(body) + 5)), Instr.Loop(Behind(Len(body) + 10));
    var inner := [split] + body + [loop];
    assert UpToCode(body, k, greedy) == [push] + inner + [Instr.Drop];
    BracketAt(m.bc, pc, push, inner, Instr.Drop);
    LenBracket(push, inner, Instr.Drop);
    BracketAt(m.bc, pc + 5, split, body, loop);
    LenBracket(split, body, loop);
    DepthNext(m.bc, pc, d, push);
    DepthNext(m.bc, pc + 5, d + 1, split);
    BalancedPast(m.bc, pc + 10, body, d + 1);
    DepthNext(m.bc, pc + 10 + Len(body), d + 1, loop);
    DepthNext(m.bc, pc + 15 + Len(body), d + 1, Instr.Drop);
  }

  lemma TimesLayout(m: Machine, atom: seq<Instr>, n: u32, pc: nat, d: nat)
    requires CodeAt(m.bc, pc, TimesCode(atom, n)) && Balanced(atom) && AtDepth(m.bc, pc, d)
    requires Len(TimesCode(atom, n)) < 0x8000_0000
    ensures Decode(m.bc, pc) == Some(Instr.PushI32(n)) && CodeAt(m.bc, pc + 5, atom)
    ensures TimesAt(m, Len(atom), pc + 5, d)
    ensures Len(TimesCode(atom, n)) == Len(atom) + 11
  {
    hide CodeAt, Len, Decode, AtDepth, ToU32, Behind, Balanced;
    var push, loop := Instr.PushI32(n), Instr.Loop(Behind(Len(atom) + 5));
    var inner := atom + [loop];
    assert TimesCode(atom, n) == [push] + inner + [Instr.Drop];
    BracketAt(m.bc, pc, push, inner, Instr.Drop);
    LenBracket(push, inner, Instr.Drop);
    CodeAtConcat(m.bc, pc + 5, atom, [loop]);
    OneInstr(m.bc, pc + 5 + Len(atom), loop);
    LenConcat(atom, [loop]);
    DepthNext(m.bc, pc, d, push);
    BalancedPast(m.bc, pc + 5, atom, d + 1);
    DepthNext(m.bc, pc + 5 + Len(atom), d + 1, loop);
    DepthNext(m.bc, pc + 10 + Len(atom), d + 1, Instr.Drop);
  }

  /** The optional iterations. */
  lemma TailDoes(m: Machine, a: Node, back: bool, cc: nat, min: nat, max: nat, greedy: bool, pt: nat, s: State, stk: seq<nat>)
    requires ValidNode(a) && cc + Groups(a) <= m.env.captureCount <= 0x100 && Anywhere(m, a, back, cc)
    requires min <= max <= INFINITE && ValidState(m.env, s) && AtDepth(m.bc, pt, |stk|)
    requires var tail := TailCode(Code(m.env.flags, a, back, cc), min, max, greedy);
      CodeAt(m.bc, pt, tail) && Len(tail) < 0x8000_0000
    ensures Does(m, pt, stk, s, pt + Len(TailCode(Code(m.env.flags, a, back, cc), min, max, greedy)), stk,
      Optional(m.env, a, back, cc, if max == INFINITE then None else Some(max - min), greedy, s))
  {
    hide Code, CodeAt, Does, AtDepth, ValidState, Runs, BodyRuns, Anywhere, Len, Decode, ValidNode, Groups, LoopBody,
      Balanced, StarCode, UpToCode, OptionCode, StarAt, UpToAt, ToU32, Moves, OptionalAll, Advancing, Matches;
    var atom := Code(m.env.flags, a, back, cc);
    var body := LoopBody(atom);
    CodeBalanced(m.env.flags, a, back, cc);
    BalancedBody(atom);
    if max == INFINITE {
      StarLayout(m, body, greedy, pt, |stk|);
      BodyRunsAnywhere(m, a, back, cc, pt + 5);
      StarDoes(m, a, back, cc, greedy, pt, s, stk);
    } else if max == min {
      LenNothing();
      DoesHere(m, pt, stk, s);
    } else if min == 0 && max == 1 {
      OptionLayout(m, body, greedy, pt, |stk|);
      BodyRunsAnywhere(m, a, back, cc, pt + 5);
      OptionDoes(m, a, back, cc, greedy, pt, s, stk);
    } else {
      var k := max - min;
      UpToLayout(m, body, k, greedy, pt, |stk|);
      BodyRunsAnywhere(m, a, back, cc, pt + 10);
      UpToDoes(m, a, back, cc, greedy, pt + 5, k, s, stk);
      StatePos(m.env, s);
      MovesPush(m, pt, stk, s, k);
      DepthNext(m.bc, pt, |stk|, Instr.PushI32(k));
      assert |stk + [k]| == |stk| + 1;
      DoesAfterMove(m, pt, stk, s, pt + 5, stk + [k], s, pt + 16 + Len(body), stk,
        Optional(m.env, a, back, cc, Some(k), greedy, s));
    }
  }

  lemma LenNothing()
    ensures Len([]) == 0
  {
  }

  lemma StartStateValid(e: Env, n: Node, back: bool, cc: nat, s: State)
    requires n.Quant? && ValidState(e, s)
    ensures ValidState(e, StartState(n, cc, s)) && AllFrom(e, back, s.pos, [StartState(n, cc, s)])
  {
  }

  /** The reset, or the mandatory iterations. */
  lemma HeadDoes(m: Machine, n: Node, back: bool, cc: nat, pc: nat, s: State, stk: seq<nat>)
    requires n.Quant? && ValidNode(n) && ValidNode(n.atom) && Groups(n) == Groups(n.atom) && n.min <= INFINITE
    requires cc + Groups(n.atom) <= m.env.captureCount <= 0x100 && Anywhere(m, n.atom, back, cc)
    requires ValidState(m.env, s) && AtDepth(m.bc, pc, |stk|)
    requires var head := HeadCode(Code(m.env.flags, n.atom, back, cc), n.min, cc, Groups(n.atom));
      CodeAt(m.bc, pc, head) && Len(head) < 0x8000_0000
    ensures AllFrom(m.env, back, s.pos, [StartState(n, cc, s)])
    ensures var end := pc + Len(HeadCode(Code(m.env.flags, n.atom, back, cc), n.min, cc, Groups(n.atom)));
      && AtDepth(m.bc, end, |stk|)
      && Does(m, pc, stk, s, end, stk, Repeat(m.env, n.atom, back, cc, n.min, s.pos, [StartState(n, cc, s)]))
  {
    hide Code, CodeAt, Does, AtDepth, ValidState, Runs, Anywhere, Len, Decode, ValidNode, Groups, Balanced, TimesAt,
      TimesCode, Moves, Matches, MatchesAll, AllFrom, Reset;
    var e, a := m.env, n.atom;
    var atom := Code(e.flags, a, back, cc);
    var s0 := StartState(n, cc, s);
    StartStateValid(e, n, back, cc, s);
    StatePos(e, s);
    CodeBalanced(e.flags, a, back, cc);
    if n.min == 0 {
      if Groups(a) > 0 {
        var reset := Instr.SaveReset(cc, cc + Groups(a) - 1);
        OneInstr(m.bc, pc, reset);
        DepthNext(m.bc, pc, |stk|, reset);
        CapsLength(e, s);
        MovesReset(m, pc, stk, s, cc, cc + Groups(a) - 1);
        DoesMove(m, pc, stk, s, pc + 3, stk, s0);
      } else {
        LenNothing();
        DoesHere(m, pc, stk, s);
      }
    } else if n.min == 1 {
      BalancedPast(m.bc, pc, atom, |stk|);
      AnywhereAt(m, a, back, cc, pc);
      RunsAt(m, a, back, cc, pc, s, stk);
      RepeatOnce(e, a, back, cc, s);
    } else {
      TimesLayout(m, atom, n.min, pc, |stk|);
      AnywhereAt(m, a, back, cc, pc + 5);
      TimesDoes(m, a, back, cc, pc + 5, n.min, s.pos, s, stk);
      MovesPush(m, pc, stk, s, n.min);
      TimesDepths(m, Len(atom), pc + 5, |stk|);
      assert |stk + [n.min]| == |stk| + 1;
      DoesAfterMove(m, pc, stk, s, pc + 5, stk + [n.min], s, pc + 11 + Len(atom), stk,
        Repeat(e, a, back, cc, n.min, s.pos, [s]));
    }
  }

  lemma CapsLength(e: Env, s: State)
    requires ValidState(e, s)
    ensures |s.caps| == 2 * e.captureCount
  {
  }

  lemma TimesDepths(m: Machine, len: nat, pa: nat, d: nat)
    requires TimesAt(m, len, pa, d)
    ensures AtDepth(m.bc, pa, d + 1) && AtDepth(m.bc, pa + len + 6, d)
  {
  }

  lemma AnywhereAt(m: Machine, a: Node, back: bool, cc: nat, p: nat)
    requires ValidNode(a) && cc + Groups(a) <= m.env.captureCount <= 0x100 && Anywhere(m, a, back, cc)
    requires CodeAt(m.bc, p, Code(m.env.flags, a, back, cc)) && Len(Code(m.env.flags, a, back, cc)) < 0x8000_0000
    ensures Runs(m, a, back, cc, p)
  {
    hide Runs, CodeAt, Code, Len;
  }

  function More(n: Node): (r: Option<nat>)
    requires n.Quant? && n.min <= n.max
  {
    if n.max == INFINITE then None else Some(n.max - n.min)
  }

  /** The reference semantics of a quantifier, unfolded. */
  lemma QuantMatchLists(e: Env, n: Node, back: bool, cc: nat, s: State)
    requires n.Quant? && ValidNode(n) && cc + Groups(n) <= e.captureCount && ValidState(e, s)
    requires ValidNode(n.atom) && Groups(n) == Groups(n.atom) && n.min <= n.max
    ensures AllFrom(e, back, s.pos, [StartState(n, cc, s)])
    ensures var rs := Repeat(e, n.atom, back, cc, n.min, s.pos, [StartState(n, cc, s)]);
      Matches(e, n, back, cc, s) == Flatten(OptionalLists(e, n.atom, back, cc, More(n), n.greedy, s.pos, rs))
  {
    hide Repeat, Optional, OptionalLists, Flatten, OptionalAll;
    StartStateValid(e, n, back, cc, s);
    var rs := Repeat(e, n.atom, back, cc, n.min, s.pos, [StartState(n, cc, s)]);
    OptionalAllFlatten(e, n.atom, back, cc, More(n), n.greedy, s.pos, Room(e, back, s.pos) + 1, rs);
  }

  /** Reset or mandatory iterations, then optional iterations. */
  lemma GeneralQuantDoes(m: Machine, n: Node, back: bool, cc: nat, pc: nat, s: State, stk: seq<nat>)
    requires n.Quant? && ValidNode(n) && ValidNode(n.atom) && Groups(n) == Groups(n.atom) && n.min <= n.max <= INFINITE
    requires cc + Groups(n.atom) <= m.env.captureCount <= 0x100 && Anywhere(m, n.atom, back, cc)
    requires ValidState(m.env, s) && AtDepth(m.bc, pc, |stk|)
    requires var atom := Code(m.env.flags, n.atom, back, cc);
      var code := HeadCode(atom, n.min, cc, Groups(n.atom)) + TailCode(atom, n.min, n.max, n.greedy);
      CodeAt(m.bc, pc, code) && Len(code) < 0x8000_0000
    ensures var atom := Code(m.env.flags, n.atom, back, cc);
      Does(m, pc, stk, s,
        pc + Len(HeadCode(atom, n.min, cc, Groups(n.atom)) + TailCode(atom, n.min, n.max, n.greedy)), stk,
        Matches(m.env, n, back, cc, s))
  {
    hide Code, CodeAt, Does, AtDepth, Runs, Anywhere, Len, Decode, ValidNode, Groups, HeadCode, TailCode, Matches, Repeat,
      Optional, Flatten, StartState, Reset, ValidState;
    var e, a := m.env, n.atom;
    var atom := Code(e.flags, a, back, cc);
    var head, tail := HeadCode(atom, n.min, cc, Groups(a)), TailCode(atom, n.min, n.max, n.greedy);
    LenConcat(head, tail);
    CodeAtConcat(m.bc, pc, head, tail);
    var mid := pc + Len(head);
    HeadDoes(m, n, back, cc, pc, s, stk);
    QuantMatchLists(e, n, back, cc, s);
    var rs := Repeat(e, a, back, cc, n.min, s.pos, [StartState(n, cc, s)]);
    var next := OptionalLists(e, a, back, cc, More(n), n.greedy, s.pos, rs);
    forall i | 0 <= i < |rs| ensures Does(m, mid, stk, rs[i], mid + Len(tail), stk, next[i]) {
      assert ValidState(e, rs[i]);
      TailDoes(m, a, back, cc, n.min, n.max, n.greedy, mid, rs[i], stk);
    }
    DoesThen(m, pc, stk, s, mid, stk, rs, mid + Len(tail), stk, next);
  }

  /** `atom; split atom`. */
  lemma PlusQuantDoes(m: Machine, n: Node, back: bool, cc: nat, pc: nat, s: State, stk: seq<nat>)
    requires n.Quant? && ValidNode(n) && ValidNode(n.atom) && Groups(n) == Groups(n.atom)
    requires cc + Groups(n.atom) <= m.env.captureCount <= 0x100 && Anywhere(m, n.atom, back, cc)
    requires ValidState(m.env, s) && AtDepth(m.bc, pc, |stk|)
    requires var atom := Code(m.env.flags, n.atom, back, cc);
      && IsPlus(atom, n.min, n.max)
      && CodeAt(m.bc, pc, PlusCode(atom, n.greedy)) && Len(PlusCode(atom, n.greedy)) < 0x8000_0000
    ensures Does(m, pc, stk, s, pc + Len(PlusCode(Code(m.env.flags, n.atom, back, cc), n.greedy)), stk,
        Matches(m.env, n, back, cc, s))
  {
    hide Code, CodeAt, Does, AtDepth, Runs, Anywhere, Len, Decode, ValidNode, Groups, Matches, Repeat, Optional, Flatten,
      Reset, ValidState, NeedCheckAdvance, Balanced, Behind;
    var e, a := m.env, n.atom;
    var atom := Code(e.flags, a, back, cc);
    var split := Instr.Split(!n.greedy, Behind(Len(atom) + 5));
    var ps := pc + Len(atom);
    CodeAtConcat(m.bc, pc, atom, [split]);
    LenConcat(atom, [split]);
    OneInstr(m.bc, ps, split);
    CodeBalanced(e.flags, a, back, cc);
    BalancedPast(m.bc, pc, atom, |stk|);
    DepthNext(m.bc, ps, |stk|, split);
    AnywhereAt(m, a, back, cc, pc);
    RunsAt(m, a, back, cc, pc, s, stk);
    QuantMatchLists(e, n, back, cc, s);
    RepeatOnce(e, a, back, cc, s);
    var rs := Matches(e, a, back, cc, s);
    var next := OptionalLists(e, a, back, cc, None, n.greedy, s.pos, rs);
    forall i | 0 <= i < |rs| ensures Does(m, ps, stk, rs[i], ps + 5, stk, next[i]) {
      assert ValidState(e, rs[i]);
      PlusDoes(m, a, back, cc, n.greedy, pc, rs[i], stk);
    }
    DoesThen(m, pc, stk, s, ps, stk, rs, ps + 5, stk, next);
  }

  lemma FastLayout(m: Machine, atom: seq<Instr>, min: u32, max: u32, pc: nat, d: nat)
    requires CodeAt(m.bc, pc, GreedyCode(atom, min, max)) && Len(GreedyCode(atom, min, max)) < 0x8000_0000
    requires Balanced(atom) && AtDepth(m.bc, pc, d) && SimpleLen(atom) > 0 && 0 < max && min <= max
    ensures GreedyAt(m, pc, atom, min, max, d) && Len(GreedyCode(atom, min, max)) == 18 + Len(atom)
  {
    hide CodeAt, Len, Decode, AtDepth, ToU32, Balanced, SimpleLen;
    var i := Instr.SimpleGreedy(ToU32(Len(atom) + 1), min, max, ToU32(SimpleLen(atom)));
    assert [i] + atom + [Instr.Match] == [i] + (atom + [Instr.Match]);
    CodeAtConcat(m.bc, pc, [i], atom + [Instr.Match]);
    OneInstr(m.bc, pc, i);
    BracketAt(m.bc, pc, i, atom, Instr.Match);
    LenBracket(i, atom, Instr.Match);
    DepthNext(m.bc, pc, d, i);
    BalancedPast(m.bc, pc + 17, atom, d);
    DepthNext(m.bc, pc + 17 + Len(atom), d, Instr.Match);
  }

  lemma QuantDoes(m: Machine, n: Node, back: bool, cc: nat, pc: nat, s: State, stk: seq<nat>)
    requires n.Quant? && ValidNode(n) && ValidNode(n.atom) && Groups(n) == Groups(n.atom) && n.min <= n.max <= INFINITE
    requires cc + Groups(n.atom) <= m.env.captureCount <= 0x100 && Anywhere(m, n.atom, back, cc)
    requires ValidState(m.env, s) && AtDepth(m.bc, pc, |stk|)
    requires var code := QuantCode(Code(m.env.flags, n.atom, back, cc), n.min, n.max, n.greedy, cc, Groups(n.atom));
      CodeAt(m.bc, pc, code) && Len(code) < 0x8000_0000
    ensures Does(m, pc, stk, s,
      pc + Len(QuantCode(Code(m.env.flags, n.atom, back, cc), n.min, n.max, n.greedy, cc, Groups(n.atom))), stk,
      Matches(m.env, n, back, cc, s))
  {
    hide Code, CodeAt, Does, AtDepth, ValidState, Anywhere, Len, ValidNode, Groups, Matches, QuantCode, GreedyCode,
      PlusCode, HeadCode, TailCode, SimpleLen, NeedCheckAdvance, GreedyAt, Balanced;
    var atom := Code(m.env.flags, n.atom, back, cc);
    QuantShape(atom, n.min, n.max, n.greedy, cc, Groups(n.atom));
    if IsFast(atom, n.max, n.greedy) {
      CodeBalanced(m.env.flags, n.atom, back, cc);
      FastLayout(m, atom, n.min, n.max, pc, |stk|);
      GreedyDoes(m, n, back, cc, pc, s, stk);
    } else if IsPlus(atom, n.min, n.max) {
      PlusQuantDoes(m, n, back, cc, pc, s, stk);
    } else {
      GeneralQuantDoes(m, n, back, cc, pc, s, stk);
    }
  }

  lemma LenBody(atom: seq<Instr>)
    ensures Len(atom) <= Len(LoopBody(atom))
  {
    hide Len, NeedCheckAdvance;
    LenBracket(Instr.PushCharPos, atom, Instr.CheckAdvance);
  }

  lemma LeafRuns(m: Machine, n: Node, back: bool, cc: nat, pc: nat)
    requires Fits(m, n, back, cc, pc)
    requires !n.Cat? && !n.Alt? && !n.Capture? && !n.Look? && !n.Quant?
    ensures Runs(m, n, back, cc, pc)
  {
    hide Code, CodeAt, Does, AtDepth, ValidState, Len, Matches, ValidNode, Groups;
    forall s, stk | ValidState(m.env, s) && AtDepth(m.bc, pc, |stk|)
      ensures Does(m, pc, stk, s, pc + Len(Code(m.env.flags, n, back, cc)), stk, Matches(m.env, n, back, cc, s))
    {
      LeafDoes(m, n, back, cc, pc, s, stk);
    }
  }

  /** Every node's code, anywhere, enumerates the node's matches. */
  lemma {:induction false} NodeRuns(m: Machine, n: Node, back: bool, cc: nat, pc: nat)
    requires Fits(m, n, back, cc, pc)
    ensures Runs(m, n, back, cc, pc)
    decreases Nodes(n), 1
  {
    hide Fits, Runs, ValidNode;
    if n.Cat? {
      CatRuns(m, n, back, cc, pc);
    } else if n.Alt? {
      AltRuns(m, n, back, cc, pc);
    } else if n.Capture? {
      CaptureRuns(m, n, back, cc, pc);
    } else if n.Look? {
      LookRuns(m, n, back, cc, pc);
    } else if n.Quant? {
      QuantRuns(m, n, back, cc, pc);
    } else {
      LeafRuns(m, n, back, cc, pc);
    }
  }

  lemma QuantParts(m: Machine, n: Node, back: bool, cc: nat, pc: nat)
    requires n.Quant? && Fits(m, n, back, cc, pc)
    ensures Nodes(n.atom) < Nodes(n) && ValidNode(n) && ValidNode(n.atom) && Groups(n) == Groups(n.atom)
    ensures n.min <= n.max <= INFINITE && cc + Groups(n.atom) <= m.env.captureCount <= 0x100
    ensures var code := QuantCode(Code(m.env.flags, n.atom, back, cc), n.min, n.max, n.greedy, cc, Groups(n.atom));
      && Code(m.env.flags, n, back, cc) == code
      && CodeAt(m.bc, pc, code) && Len(code) < 0x8000_0000
  {
    hide CodeAt, Len, QuantCode;
  }

  lemma QuantRuns(m: Machine, n: Node, back: bool, cc: nat, pc: nat)
    requires n.Quant? && Fits(m, n, back, cc, pc)
    ensures Runs(m, n, back, cc, pc)
    decreases Nodes(n), 0
  {
    hide Code, CodeAt, Does, AtDepth, ValidState, Runs, Len, Decode, Matches, ValidNode, Groups, Nodes, QuantCode;
    QuantParts(m, n, back, cc, pc);
    if Len(Code(m.env.flags, n.atom, back, cc)) < 0x8000_0000 {
      forall p | CodeAt(m.bc, p, Code(m.env.flags, n.atom, back, cc)) ensures Runs(m, n.atom, back, cc, p) {
        NodeRuns(m, n.atom, back, cc, p);
      }
    }
    forall s, stk | ValidState(m.env, s) && AtDepth(m.bc, pc, |stk|)
      ensures Does(m, pc, stk, s, pc + Len(Code(m.env.flags, n, back, cc)), stk, Matches(m.env, n, back, cc, s))
    {
      QuantDoes(m, n, back, cc, pc, s, stk);
    }
    RunsIntro(m, n, back, cc, pc);
  }
}
