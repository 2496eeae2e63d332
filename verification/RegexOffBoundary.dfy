/** Starts between the two halves of a surrogate pair: there, and only there, some pattern is answered differently from
    the reference semantics. */
module RegexOffBoundary {
  import opened Bytes
  import opened RegexCode
  import opened RegexText
  import opened RegexSyntax
  import opened RegexReference
  import opened RegexMachine
  import opened RegexCorrect
  import opened RegexFragments
  import opened RegexTheorem
  import opened RegexProgram

  /** The machine halts with the first outcome of the reference semantics. */
  ghost predicate Answers(m: Machine, n: Node, sticky: bool, p: nat)
    requires ValidNode(n) && 1 + Groups(n) <= m.env.captureCount && p <= |m.env.text.units|
  {
    Reach(m, Start(m.env, p), Halt(Answer(Outcomes(m.env, n, sticky, p))))
  }

  /** Every compiled pattern is answered as by the reference from this position of the text. */
  ghost predicate AllAnswered(t: Text, p: nat)
    requires p <= |t.units|
  {
    forall m: Machine, n: Node, sticky: bool | m.env.text == t && Compiled(m, n, sticky) ::
      Answers(m, n, sticky, p)
  }

  // ---- what a run ends with ----

  lemma {:induction false} IterateMore(m: Machine, k: nat, j: nat, c: Config)
    ensures Iterate(m, k + j, c) == Iterate(m, j, Iterate(m, k, c))
    decreases k
  {
    hide Step;
    if k > 0 {
      IterateMore(m, k - 1, j, Step(m, c));
    }
  }

  lemma {:induction false} HaltIterates(m: Machine, k: nat, r: Option<Captures>)
    ensures Iterate(m, k, Halt(r)) == Halt(r)
    decreases k
  {
    if k > 0 {
      HaltStays(m, r);
      HaltIterates(m, k - 1, r);
    }
  }

  /** A run has one end. */
  lemma OneEnd(m: Machine, c: Config, k: nat, a: Option<Captures>, b: Option<Captures>)
    requires Iterate(m, k, c) == Halt(a) && Reach(m, c, Halt(b))
    ensures a == b
  {
    hide Step, Iterate;
    var n: nat :| Path(m, n, c, Halt(b));
    PathStates(m, n, c, b, n);
    IterateMore(m, n, k, c);
    IterateMore(m, k, n, c);
    HaltIterates(m, k, b);
    HaltIterates(m, n, a);
  }

  /** The instruction at index `k` of code at address 0. */
  lemma DecodeAt(bc: seq<u8>, code: seq<Instr>, k: nat)
    requires CodeAt(bc, 0, code) && k < |code|
    ensures Decode(bc, Len(code[..k])) == Some(code[k])
  {
    hide Decode, Len;
    assert code == code[..k] + code[k..];
    CodeAtConcat(bc, 0, code[..k], code[k..]);
  }

  lemma {:induction false} LenTake(code: seq<Instr>, k: nat)
    requires k < |code|
    ensures Len(code[..k + 1]) == Len(code[..k]) + Size(code[k])
  {
    hide Size;
    assert code[..k + 1] == code[..k] + [code[k]];
    LenConcat(code[..k], [code[k]]);
    assert [code[k]][1..] == [];
  }

  // ---- the look-behind ----

  const PLAIN := Flags(false, false, false, (c: codepoint) => c)

  /** `(?<=c)` */
  function LookBehind(c: u16): (r: Node) {
    Node.Look(Node.Char(c), false, true)
  }

  function LookBehindCode(c: u16): (r: seq<Instr>) {
    [Instr.Save(false, 0), Instr.Look(false, 6), Instr.Prev, Instr.Char(c), Instr.Prev, Instr.Match,
     Instr.Save(true, 0), Instr.Match]
  }

  lemma LookBehindProgram(c: u16)
    ensures ValidNode(LookBehind(c)) && Groups(LookBehind(c)) == 0
    ensures ProgramCode(PLAIN, LookBehind(c), true) == LookBehindCode(c)
  {
    var ca := [Instr.Prev, Instr.Char(c), Instr.Prev];
    assert Code(PLAIN, Node.Char(c), true, 1) == ca;
    LenThree(Instr.Prev, Instr.Char(c), Instr.Prev);
    assert Code(PLAIN, LookBehind(c), false, 1) == [Instr.Look(false, ToU32(6))] + ca + [Instr.Match];
  }

  lemma LenSingle(i: Instr)
    ensures Len([i]) == Size(i)
  {
    assert [i][1..] == [];
  }

  lemma LenThree(a: Instr, b: Instr, c: Instr)
    ensures Len([a, b, c]) == Size(a) + Size(b) + Size(c)
  {
    hide Size;
    LenConcat([a], [b, c]);
    LenConcat([b], [c]);
    assert [a] + [b, c] == [a, b, c] && [b] + [c] == [b, c];
    LenSingle(a);
    LenSingle(b);
    LenSingle(c);
  }

  /** The machine that runs it on `t`. */
  function LookBehindMachine(t: Text, c: u16): (m: Machine) {
    Machine(Env(t, PLAIN, 1), Assemble(LookBehindCode(c)))
  }

  lemma LookBehindCompiled(t: Text, c: u16)
    ensures Compiled(LookBehindMachine(t, c), LookBehind(c), true)
    ensures var bc := LookBehindMachine(t, c).bc;
      && Decode(bc, 0) == Some(Instr.Save(false, 0)) && Decode(bc, 2) == Some(Instr.Look(false, 6))
      && Decode(bc, 7) == Some(Instr.Prev) && Decode(bc, 8) == Some(Instr.Char(c))
  {
    hide Assemble, Decode, CodeAt, ProgramCode, ValidNode, Groups;
    var m, code := LookBehindMachine(t, c), LookBehindCode(c);
    LookBehindProgram(c);
    LookBehindLen(c);
    ProgramLayout(m, LookBehind(c), true);
    DecodeAt(m.bc, code, 0);
    DecodeAt(m.bc, code, 1);
    DecodeAt(m.bc, code, 2);
    DecodeAt(m.bc, code, 3);
  }

  lemma LookBehindLen(c: u16)
    ensures var code := LookBehindCode(c);
      && Len(code[..0]) == 0 && Len(code[..1]) == 2 && Len(code[..2]) == 7 && Len(code[..3]) == 8
      && Len(code) == 16
  {
    hide Len;
    var code := LookBehindCode(c);
    assert code[..0] == [];
    LenNothing();
    LenTake(code, 0);
    LenTake(code, 1);
    LenTake(code, 2);
    LenTake(code, 3);
    LenTake(code, 4);
    LenTake(code, 5);
    LenTake(code, 6);
    LenTake(code, 7);
    assert code[..8] == code;
  }

  /** Behind the first half of a pair, the reference finds that half. */
  lemma LookBehindMatches(t: Text, p: nat)
    requires p <= |t.units| && !Boundary(t, p)
    ensures ValidNode(LookBehind(t.units[p - 1])) && Groups(LookBehind(t.units[p - 1])) == 0
    ensures Outcomes(Env(t, PLAIN, 1), LookBehind(t.units[p - 1]), true, p) != []
  {
    var e, c := Env(t, PLAIN, 1), t.units[p - 1];
    LookBehindProgram(c);
    var s := SaveSlot(State(p, NoCaptures(e)), 0);
    assert MatchChar(e, Node.Char(c), true, s) == [s.(pos := PrevPos(t, p, 0))];
    assert Matches(e, LookBehind(c), false, 1, s) == [s];
  }

  /** The machine steps back to that half, reads the whole pair, and fails. */
  lemma LookBehindFails(t: Text, p: nat)
    requires p <= |t.units| && !Boundary(t, p)
    ensures Iterate(LookBehindMachine(t, t.units[p - 1]), 6, Start(Env(t, PLAIN, 1), p)) == Halt(None)
  {
    hide Decode, Assemble, Compiled;
    var c := t.units[p - 1];
    var m := LookBehindMachine(t, c);
    LookBehindCompiled(t, c);
    var s0 := State(p, NoCaptures(m.env));
    var s := SaveSlot(s0, 0);
    var entry := Saved(LookPoint(false), 13, p, s.caps, [], 0);
    var c0, c1, c2 := Start(m.env, p), Run(2, s, [], []), Run(7, s, [], [entry]);
    var c3 := Run(8, s.(pos := p - 1), [], [entry]);
    assert Step(m, c0) == c1;
    assert Step(m, c1) == c2;
    assert Step(m, c2) == c3;
    assert Step(m, c3) == Fail([entry]);
    assert Step(m, Fail([entry])) == Fail([]);
    assert Step(m, Fail([])) == Halt(None);
    Steps6(m, c0, c1, c2, c3, Fail([entry]), Fail([]), Halt(None));
  }

  lemma Steps6(m: Machine, c0: Config, c1: Config, c2: Config, c3: Config, c4: Config, c5: Config, c6: Config)
    requires Step(m, c0) == c1 && Step(m, c1) == c2 && Step(m, c2) == c3
    requires Step(m, c3) == c4 && Step(m, c4) == c5 && Step(m, c5) == c6
    ensures Iterate(m, 6, c0) == c6
  {
    hide Step;
    assert Iterate(m, 0, c6) == c6;
    assert Iterate(m, 1, c5) == c6;
    assert Iterate(m, 2, c4) == c6;
    assert Iterate(m, 3, c3) == c6;
    assert Iterate(m, 4, c2) == c6;
    assert Iterate(m, 5, c1) == c6;
  }

  /** Every compiled pattern is answered as by the reference semantics from a position of a text if and only if the
      position is a character boundary. */
  lemma AnsweredIff(t: Text, p: nat)
    requires p <= |t.units|
    ensures AllAnswered(t, p) <==> Boundary(t, p)
  {
    hide Compiled, Outcomes, Boundary, Reach, ValidNode, Groups, Assemble, Iterate;
    if Boundary(t, p) {
      forall m: Machine, n: Node, sticky: bool | m.env.text == t && Compiled(m, n, sticky)
        ensures ValidNode(n) && 1 + Groups(n) <= m.env.captureCount && Answers(m, n, sticky, p)
      {
        CompilerCorrect(m, n, sticky, p);
      }
    } else {
      BetweenHalves(t, p);
      var c := t.units[p - 1];
      var m := LookBehindMachine(t, c);
      LookBehindCompiled(t, c);
      LookBehindMatches(t, p);
      LookBehindFails(t, p);
      if AllAnswered(t, p) {
        assert Answers(m, LookBehind(c), true, p);
        OneEnd(m, Start(m.env, p), 6, None, Answer(Outcomes(m.env, LookBehind(c), true, p)));
        assert false;
      }
    }
  }

  lemma BetweenHalves(t: Text, p: nat)
    requires p <= |t.units| && !Boundary(t, p)
    ensures p >= 1 && p < |t.units| && t.utf16 && IsHiSurrogate(t.units[p - 1]) && IsLoSurrogate(t.units[p])
  {
  }

  // ---- the greedy fast path ----

  const DOT_ALL := Flags(false, true, false, (c: codepoint) => c)

  /** `.?(.)` */
  const OPTIONAL_THEN_GROUP := Node.Cat(Node.Quant(Node.AnyChar, 0, 1, true), Node.Capture(Node.AnyChar))

  const OPTIONAL_THEN_GROUP_CODE: seq<Instr> :=
    [Instr.Save(false, 0), Instr.SimpleGreedy(2, 0, 1, 1), Instr.Any, Instr.Match, Instr.Save(false, 1), Instr.Any,
     Instr.Save(true, 1), Instr.Save(true, 0), Instr.Match]

  lemma OneAny()
    ensures Len([Instr.Any]) == 1 && SimpleLen([Instr.Any]) == 1
  {
    assert [Instr.Any][1..] == [];
  }

  lemma OptionalAny()
    ensures QuantCode([Instr.Any], 0, 1, true, 1, 0) == [Instr.SimpleGreedy(2, 0, 1, 1), Instr.Any, Instr.Match]
  {
    hide Len, SimpleLen, NeedCheckAdvance, LoopBody, OptionCode;
    OneAny();
    assert ToU32(2) == 2 && ToU32(1) == 1;
  }

  lemma {:induction false} GroupProgram()
    ensures ValidNode(OPTIONAL_THEN_GROUP) && Groups(OPTIONAL_THEN_GROUP) == 1
    ensures ProgramCode(DOT_ALL, OPTIONAL_THEN_GROUP, true) == OPTIONAL_THEN_GROUP_CODE
  {
    hide QuantCode, Code, CharCode;
    OptionalCode();
    GroupCode();
    CatUnfold(DOT_ALL, OPTIONAL_THEN_GROUP, false, 1);
  }

  lemma {:induction false} AnyCode(cc: nat)
    requires cc <= 0x100
    ensures Code(DOT_ALL, Node.AnyChar, false, cc) == [Instr.Any]
  {
  }

  lemma {:induction false} OptionalCode()
    ensures ValidNode(OPTIONAL_THEN_GROUP.first) && Groups(OPTIONAL_THEN_GROUP.first) == 0
    ensures Code(DOT_ALL, OPTIONAL_THEN_GROUP.first, false, 1)
         == [Instr.SimpleGreedy(2, 0, 1, 1), Instr.Any, Instr.Match]
  {
    hide QuantCode, CharCode;
    AnyCode(1);
    OptionalAny();
  }

  lemma {:induction false} GroupCode()
    ensures ValidNode(OPTIONAL_THEN_GROUP.second) && Groups(OPTIONAL_THEN_GROUP.second) == 1
    ensures Code(DOT_ALL, OPTIONAL_THEN_GROUP.second, false, 1)
         == [Instr.Save(false, 1), Instr.Any, Instr.Save(true, 1)]
  {
    hide QuantCode, CharCode;
    AnyCode(2);
  }

  function GroupMachine(t: Text): (m: Machine) {
    Machine(Env(t, DOT_ALL, 2), Assemble(OPTIONAL_THEN_GROUP_CODE))
  }

  lemma GroupLen()
    ensures var code := OPTIONAL_THEN_GROUP_CODE;
      && Len(code[..0]) == 0 && Len(code[..1]) == 2 && Len(code[..2]) == 19 && Len(code[..3]) == 20
      && Len(code[..4]) == 21 && Len(code[..5]) == 23 && Len(code[..6]) == 24 && Len(code[..7]) == 26
      && Len(code[..8]) == 28 && Len(code) == 29
  {
    hide Len;
    var code := OPTIONAL_THEN_GROUP_CODE;
    assert code[..0] == [];
    LenNothing();
    LenTake(code, 0);
    LenTake(code, 1);
    LenTake(code, 2);
    LenTake(code, 3);
    LenTake(code, 4);
    LenTake(code, 5);
    LenTake(code, 6);
    LenTake(code, 7);
    LenTake(code, 8);
    assert code[..9] == code;
  }

  lemma GroupCompiled(t: Text)
    ensures Compiled(GroupMachine(t), OPTIONAL_THEN_GROUP, true)
    ensures var bc := GroupMachine(t).bc;
      && Decode(bc, 0) == Some(Instr.Save(false, 0)) && Decode(bc, 2) == Some(Instr.SimpleGreedy(2, 0, 1, 1))
      && Decode(bc, 19) == Some(Instr.Any) && Decode(bc, 20) == Some(Instr.Match)
      && Decode(bc, 21) == Some(Instr.Save(false, 1)) && Decode(bc, 23) == Some(Instr.Any)
      && Decode(bc, 24) == Some(Instr.Save(true, 1)) && Decode(bc, 26) == Some(Instr.Save(true, 0))
      && Decode(bc, 28) == Some(Instr.Match)
  {
    hide Assemble, Decode, CodeAt, ProgramCode, ValidNode, Groups, Len;
    var m, code := GroupMachine(t), OPTIONAL_THEN_GROUP_CODE;
    GroupProgram();
    GroupLen();
    ProgramLayout(m, OPTIONAL_THEN_GROUP, true);
    DecodeAt(m.bc, code, 0);
    DecodeAt(m.bc, code, 1);
    DecodeAt(m.bc, code, 2);
    DecodeAt(m.bc, code, 3);
    DecodeAt(m.bc, code, 4);
    DecodeAt(m.bc, code, 5);
    DecodeAt(m.bc, code, 6);
    DecodeAt(m.bc, code, 7);
    DecodeAt(m.bc, code, 8);
  }

  /** The groups of a result: the match and group 1. */
  function TwoGroups(a: nat, b: nat, c: nat, d: nat): (r: Captures) {
    [Some(a), Some(b), Some(c), Some(d)]
  }

  /** The run from between the halves of a pair that ends the text. The optional dot reads the second half, the group
      then fails at the end of the text, and giving the dot back goes to the first half: the group begins before the
      match. */
  lemma GroupRun(t: Text, p: nat)
    requires p + 1 == |t.units| && !Boundary(t, p)
    ensures Iterate(GroupMachine(t), 12, Start(Env(t, DOT_ALL, 2), p)) == Halt(Some(TwoGroups(p, p + 1, p - 1, p + 1)))
  {
    hide Decode, Compiled, Iterate, Step, GroupMachine, Boundary, Exec;
    var m := GroupMachine(t);
    BetweenHalves(t, p);
    var a: Captures := [Some(p), None, None, None];
    GroupHead(m, t, p, a);
    GroupTail(m, t, p, a);
    IterateMore(m, 6, 6, Start(Env(t, DOT_ALL, 2), p));
  }

  /** The optional dot is read and given back. */
  lemma GroupHead(m: Machine, t: Text, p: nat, a: Captures)
    requires m == GroupMachine(t) && p + 1 == |t.units| && !Boundary(t, p) && a == [Some(p), None, None, None]
    ensures p >= 1 && Iterate(m, 6, Start(Env(t, DOT_ALL, 2), p)) == Run(21, State(p - 1, a), [], [])
  {
    hide Decode, Compiled, Step, GroupMachine, Boundary;
    GroupCompiled(t);
    GroupEnv(t);
    BetweenHalves(t, p);
    var none: seq<Saved> := [];
    var stk: seq<nat> := [];
    var entry := Saved(GreedyPoint, 2, p + 1, a, stk, 1);
    var c0, c1, c2 := Start(m.env, p), Run(2, State(p, a), stk, none), Greedy(2, 0, State(p, a), stk, none);
    var c3 := Run(21, State(p + 1, a), stk, [entry]);
    var c4 := Run(23, State(p + 1, [Some(p), None, Some(p + 1), None]), stk, [entry]);
    assert NoCaptures(m.env) == [None, None, None, None];
    SaveStep(m, 0, false, 0, State(p, NoCaptures(m.env)), stk);
    assert Step(m, c0) == c1;
    GreedyEnters(m, State(p, a), none);
    DotThenLeave(m, p, a);
    SaveStep(m, 21, false, 1, State(p + 1, a), stk);
    assert Step(m, c3) == c4;
    AnyStep(m, 23, c4.st, stk);
    assert Step(m, c4) == Fail([entry]);
    DotGivenBack(m, t, p, a);
    Steps6(m, c0, c1, c2, c3, c4, Fail([entry]), Run(21, State(p - 1, a), stk, none));
  }

  lemma GroupEnv(t: Text)
    ensures GroupMachine(t).env == Env(t, DOT_ALL, 2)
  {
  }

  lemma GreedyEnters(m: Machine, st: State, ss: seq<Saved>)
    requires Decode(m.bc, 2) == Some(Instr.SimpleGreedy(2, 0, 1, 1)) && st.pos <= |m.env.text.units|
    ensures Step(m, Run(2, st, [], ss)) == Greedy(2, 0, st, [], ss)
  {
    hide Decode;
  }

  lemma DotThenLeave(m: Machine, p: nat, a: Captures)
    requires Decode(m.bc, 2) == Some(Instr.SimpleGreedy(2, 0, 1, 1))
    requires Decode(m.bc, 19) == Some(Instr.Any) && Decode(m.bc, 20) == Some(Instr.Match)
    requires p + 1 == |m.env.text.units|
    ensures Step(m, Greedy(2, 0, State(p, a), [], []))
         == Run(21, State(p + 1, a), [], [Saved(GreedyPoint, 2, p + 1, a, [], 1)])
  {
    hide Decode, RunSimple;
    OneDot(m, p);
    var entry := Saved(GreedyPoint, 2, p + 1, a, [], 1);
    assert [] + [entry] == [entry];
  }

  lemma DotGivenBack(m: Machine, t: Text, p: nat, a: Captures)
    requires Decode(m.bc, 2) == Some(Instr.SimpleGreedy(2, 0, 1, 1)) && m.env.text == t
    requires p + 1 == |t.units| && !Boundary(t, p)
    ensures p >= 1
    ensures Step(m, Fail([Saved(GreedyPoint, 2, p + 1, a, [], 1)])) == Run(21, State(p - 1, a), [], [])
  {
    hide Decode, Backward, Boundary;
    GiveBackOne(t, p);
    var entry := Saved(GreedyPoint, 2, p + 1, a, [], 1);
    assert Front([entry]) == [] && Last([entry]) == entry;
  }

  lemma GiveBackOne(t: Text, p: nat)
    requires p + 1 == |t.units| && !Boundary(t, p)
    ensures p >= 1 && Backward(t, p + 1, 1) == Some(p - 1)
  {
    assert Backward(t, p - 1, 0) == Some(p - 1);
  }

  lemma OneDot(m: Machine, p: nat)
    requires Decode(m.bc, 19) == Some(Instr.Any) && Decode(m.bc, 20) == Some(Instr.Match)
    requires p + 1 == |m.env.text.units|
    ensures RunSimple(m, 19, p) == Some(p + 1)
  {
    hide Decode;
    assert RunSimple(m, 20, p + 1) == Some(p + 1);
  }

  /** From the first half the group reads the whole pair. */
  lemma GroupTail(m: Machine, t: Text, p: nat, a: Captures)
    requires m == GroupMachine(t) && p + 1 == |t.units| && !Boundary(t, p) && a == [Some(p), None, None, None]
    ensures p >= 1
    ensures Iterate(m, 6, Run(21, State(p - 1, a), [], [])) == Halt(Some(TwoGroups(p, p + 1, p - 1, p + 1)))
  {
    hide Decode, Compiled, Step, GroupMachine;
    GroupCompiled(t);
    GroupEnv(t);
    BetweenHalves(t, p);
    var n1: nat := p - 1;
    var stk: seq<nat> := [];
    var b: Captures := [Some(p), None, Some(n1), None];
    var c: Captures := [Some(p), None, Some(n1), Some(p + 1)];
    var d: Captures := [Some(p), Some(p + 1), Some(n1), Some(p + 1)];
    SaveStep(m, 21, false, 1, State(n1, a), stk);
    assert SaveSlot(State(n1, a), 2) == State(n1, b);
    AnyStep(m, 23, State(n1, b), stk);
    SaveStep(m, 24, true, 1, State(p + 1, b), stk);
    assert SaveSlot(State(p + 1, b), 3) == State(p + 1, c);
    SaveStep(m, 26, true, 0, State(p + 1, c), stk);
    assert SaveSlot(State(p + 1, c), 1) == State(p + 1, d);
    MatchEnds(m, 28, State(p + 1, d));
    var c0, c1, c2 := Run(21, State(n1, a), stk, []), Run(23, State(n1, b), stk, []), Run(24, State(p + 1, b), stk, []);
    var c3, c4 := Run(26, State(p + 1, c), stk, []), Run(28, State(p + 1, d), stk, []);
    assert Step(m, c0) == c1;
    assert Step(m, c1) == c2;
    assert Step(m, c2) == c3;
    assert Step(m, c3) == c4;
    Steps6(m, c0, c1, c2, c3, c4, Accept(d, []), Halt(Some(d)));
  }

  lemma MatchEnds(m: Machine, pc: nat, st: State)
    requires Decode(m.bc, pc) == Some(Instr.Match) && st.pos <= |m.env.text.units|
    ensures Step(m, Run(pc, st, [], [])) == Accept(st.caps, [])
    ensures Step(m, Accept(st.caps, [])) == Halt(Some(st.caps))
  {
    hide Decode;
  }

  // ---- what the reference semantics answers there ----

  lemma AnyMatches(e: Env, s: State)
    requires InText(e, s) && e.flags == DOT_ALL && s.pos + 1 >= |e.text.units| && e.captureCount == 2
    ensures Matches(e, Node.AnyChar, false, 1, s) == Matches(e, Node.AnyChar, false, 2, s)
         == if s.pos == |e.text.units| then [] else [s.(pos := s.pos + 1)]
  {
  }

  lemma OptionalMatches(e: Env, s: State)
    requires InText(e, s) && e.flags == DOT_ALL && s.pos + 1 == |e.text.units| && e.captureCount == 2
    ensures Matches(e, OPTIONAL_THEN_GROUP.first, false, 1, s) == [s.(pos := s.pos + 1), s]
  {
    hide MatchChar, Matches;
    var a := Node.AnyChar;
    var n := OPTIONAL_THEN_GROUP.first;
    assert ValidNode(n) && ValidNode(a) && Groups(a) == 0 == Groups(n);
    var s1 := s.(pos := s.pos + 1);
    AnyMatches(e, s);
    QuantMatches(e, n, false, 1, s);
    RepeatNone(e, a, false, 1, s.pos, [s]);
    assert Advancing([s1], s.pos) == [s1] by { assert [s1][1..] == []; }
    assert Optional(e, a, false, 1, Some(0), true, s1) == [s1];
    OptionalOne(e, a, Some(0), s.pos, 1, s1);
    assert Optional(e, a, false, 1, Some(1), true, s) == [s1] + [s];
    OptionalOne(e, a, Some(1), s.pos, 2, s);
  }

  lemma OptionalOne(e: Env, a: Node, more: Option<nat>, from: nat, room: nat, s: State)
    requires ValidNode(a) && 1 + Groups(a) <= e.captureCount && InText(e, s) && from <= s.pos
    requires |e.text.units| - s.pos < room
    ensures OptionalAll(e, a, false, 1, more, true, from, room, [s]) == Optional(e, a, false, 1, more, true, s)
  {
    hide Optional;
    assert [s][1..] == [];
    assert OptionalAll(e, a, false, 1, more, true, from, room, []) == [];
  }

  lemma GroupMatches(e: Env, s: State)
    requires InText(e, s) && e.flags == DOT_ALL && s.pos + 1 >= |e.text.units| && e.captureCount == 2
    ensures Matches(e, OPTIONAL_THEN_GROUP.second, false, 1, s)
         == if s.pos == |e.text.units| then []
            else [State(s.pos + 1, s.caps[2 := Some(s.pos)][3 := Some(s.pos + 1)])]
  {
    hide MatchChar;
    var s1 := SaveSlot(s, 2);
    AnyMatches(e, s1);
    assert OPTIONAL_THEN_GROUP.second == Node.Capture(Node.AnyChar);
  }

  /** With group 0 open at `s`, the body matches once. */
  lemma BodyMatches(e: Env, s: State)
    requires InText(e, s) && e.flags == DOT_ALL && s.pos + 1 == |e.text.units| && e.captureCount == 2
    ensures ValidNode(OPTIONAL_THEN_GROUP) && Groups(OPTIONAL_THEN_GROUP) == 1
    ensures Matches(e, OPTIONAL_THEN_GROUP, false, 1, s)
         == [State(s.pos + 1, s.caps[2 := Some(s.pos)][3 := Some(s.pos + 1)])]
  {
    hide MatchChar, Matches, MatchesAll;
    var n, a, b := OPTIONAL_THEN_GROUP, OPTIONAL_THEN_GROUP.first, OPTIONAL_THEN_GROUP.second;
    assert ValidNode(n) && ValidNode(a) && ValidNode(b) && Groups(a) == 0 && Groups(b) == 1 && Groups(n) == 1;
    var s1 := s.(pos := s.pos + 1);
    OptionalMatches(e, s);
    GroupMatches(e, s);
    GroupMatches(e, s1);
    CatMatches(e, n, false, 1, s);
    AllOfTwo(e, b, s.pos, s1, s);
  }

  /** There the group is what the match reads. */
  lemma GroupReference(t: Text, p: nat)
    requires p + 1 == |t.units| && !Boundary(t, p)
    ensures ValidNode(OPTIONAL_THEN_GROUP) && Groups(OPTIONAL_THEN_GROUP) == 1
    ensures Answer(Outcomes(Env(t, DOT_ALL, 2), OPTIONAL_THEN_GROUP, true, p)) == Some(TwoGroups(p, p + 1, p, p + 1))
  {
    hide Boundary, Matches, ValidNode, Groups;
    var e := Env(t, DOT_ALL, 2);
    var s0 := State(p, NoCaptures(e));
    var s := State(p, [Some(p), None, None, None]);
    assert SaveSlot(s0, 0) == s;
    var r := State(p + 1, [Some(p), None, Some(p), Some(p + 1)]);
    assert s.caps[2 := Some(p)][3 := Some(p + 1)] == r.caps;
    BodyMatches(e, s);
    WholeMatches(e, OPTIONAL_THEN_GROUP, s0, s, r);
    assert SaveSlot(r, 1).caps == TwoGroups(p, p + 1, p, p + 1);
  }

  lemma AllOfTwo(e: Env, b: Node, from: nat, x: State, y: State)
    requires ValidNode(b) && 1 + Groups(b) <= e.captureCount && InText(e, x) && InText(e, y)
    requires from <= x.pos && from <= y.pos
    ensures MatchesAll(e, b, false, 1, from, [x, y]) == Matches(e, b, false, 1, x) + Matches(e, b, false, 1, y)
  {
    hide Matches;
    assert [x, y][1..] == [y] && [y][1..] == [];
    assert MatchesAll(e, b, false, 1, from, []) == [];
    assert MatchesAll(e, b, false, 1, from, [y]) == Matches(e, b, false, 1, y);
  }

  lemma {:induction false} WholeMatches(e: Env, n: Node, s0: State, s: State, r: State)
    requires ValidNode(n) && 1 + Groups(n) <= e.captureCount && InText(e, s0) && s == SaveSlot(s0, 0)
    requires InText(e, s) && Matches(e, n, false, 1, s) == [r]
    ensures ValidNode(Node.Capture(n)) && Groups(Node.Capture(n)) == 1 + Groups(n)
    ensures |r.caps| == 2 * e.captureCount && Matches(e, Node.Capture(n), false, 0, s0) == [SaveSlot(r, 1)]
  {
    assert InText(e, [r][0]);
  }

  /** A pattern, and for every text that ends in a surrogate pair a start, whose answer differs: the group of `.?(.)`
      begins before the match instead of at its start. */
  lemma GroupBeforeMatch(t: Text, p: nat)
    requires p + 1 == |t.units| && !Boundary(t, p)
    ensures ValidNode(OPTIONAL_THEN_GROUP) && Groups(OPTIONAL_THEN_GROUP) == 1
    ensures var m := GroupMachine(t);
      && Compiled(m, OPTIONAL_THEN_GROUP, true)
      && Iterate(m, 12, Start(m.env, p)) == Halt(Some(TwoGroups(p, p + 1, p - 1, p + 1)))
      && Answer(Outcomes(m.env, OPTIONAL_THEN_GROUP, true, p)) == Some(TwoGroups(p, p + 1, p, p + 1))
  {
    hide Boundary, Compiled, Outcomes, Iterate, GroupMachine, Start;
    BetweenHalves(t, p);
    GroupProgram();
    GroupEnv(t);
    GroupCompiled(t);
    GroupRun(t, p);
    GroupReference(t, p);
  }
}
