/** The greedy fast path: one instruction that counts the iterations of a simple atom and then
    gives them back one by one visits what the generic greedy loop visits, in the same order. */
module RegexGreedy {
  import opened Bytes
  import opened RegexCode
  import opened RegexText
  import opened RegexSyntax
  import opened RegexReference
  import opened RegexMachine
  import opened RegexAnalysis
  import opened RegexSimple
  import opened RegexDepth
  import opened RegexFragments
  import opened RegexLoops

  /** Code with no groups. */
  lemma {:induction false} SimpleNoGroups(f: Flags, n: Node, back: bool, cc: nat)
    requires ValidNode(n) && cc + Groups(n) <= 0x100
    requires SimpleLen(Code(f, n, back, cc)) >= 0
    ensures Groups(n) == 0
    decreases Nodes(n)
  {
    if n.Alt? || n.Capture? || n.Look? {
      NotSimpleLeaf(f, n, back, cc);
    } else if n.Cat? {
      var ca, cb := Code(f, n.first, back, cc), Code(f, n.second, back, cc + Groups(n.first));
      if back { SimpleLenConcat(cb, ca); } else { SimpleLenConcat(ca, cb); }
      SimpleNoGroups(f, n.first, back, cc);
      SimpleNoGroups(f, n.second, back, cc + Groups(n.first));
    } else if n.Quant? {
      hide QuantCode;
      SimpleQuant(Code(f, n.atom, back, cc), n.min, n.max, n.greedy, cc, Groups(n.atom));
      if n.max > 0 {
        SimpleNoGroups(f, n.atom, back, cc);
      }
    }
  }

  /** One iteration of the atom. */
  function Next(e: Env, code: seq<Instr>, s: State): (r: Option<State>)
    requires SimpleLen(code) >= 0
  {
    SimpleLenMeaning(code);
    var p := RunCode(e, code, s.pos);
    if p.Some? then Some(s.(pos := p.value)) else None
  }

  /** The atom reads a fixed positive number of characters and has at most one match. */
  ghost predicate FixedAtom(e: Env, a: Node, back: bool, cc: nat, code: seq<Instr>)
    requires ValidNode(a) && cc + Groups(a) <= e.captureCount
  {
    && SimpleLen(code) > 0
    && forall s | ValidState(e, s) ::
      && Matches(e, a, back, cc, s) == (if Next(e, code, s).Some? then [Next(e, code, s).value] else [])
      && (Next(e, code, s).Some? ==> Forward(e.text, s.pos, SimpleLen(code)) == Some(Next(e, code, s).value.pos))
  }

  lemma SimpleIsFixed(e: Env, a: Node, back: bool, cc: nat)
    requires ValidNode(a) && cc + Groups(a) <= e.captureCount <= 0x100
    requires SimpleLen(Code(e.flags, a, back, cc)) > 0
    ensures FixedAtom(e, a, back, cc, Code(e.flags, a, back, cc))
  {
    hide Matches, Code, RunCode, Forward, SimpleLen, ValidNode;
    var code := Code(e.flags, a, back, cc);
    forall s | ValidState(e, s)
      ensures s.pos <= |e.text.units| && Matches(e, a, back, cc, s) == (if Next(e, code, s).Some? then [Next(e, code, s).value] else [])
      ensures Next(e, code, s).Some? ==> Forward(e.text, s.pos, SimpleLen(code)) == Some(Next(e, code, s).value.pos)
    {
      SimpleSound(e, a, back, cc, s);
    }
  }

  lemma NextAt(e: Env, a: Node, back: bool, cc: nat, code: seq<Instr>, s: State)
    requires ValidNode(a) && cc + Groups(a) <= e.captureCount
    requires SimpleLen(code) >= 0 && FixedAtom(e, a, back, cc, code) && ValidState(e, s)
    ensures Matches(e, a, back, cc, s) == (if Next(e, code, s).Some? then [Next(e, code, s).value] else [])
    ensures Next(e, code, s).Some? ==>
      var r := Next(e, code, s).value;
      && ValidState(e, r) && s.pos < r.pos <= |e.text.units|
      && Backward(e.text, r.pos, SimpleLen(code)) == Some(s.pos)
  {
    hide Matches, Next, SimpleLen, Forward, Backward;
    if Next(e, code, s).Some? {
      var r := Next(e, code, s).value;
      assert Forward(e.text, s.pos, SimpleLen(code)) == Some(r.pos);
      assert ValidState(e, Matches(e, a, back, cc, s)[0]);
      ForwardBoundary(e.text, s.pos, SimpleLen(code));
      BackwardUndoesForward(e.text, s.pos, SimpleLen(code));
    }
  }

  /** How many further iterations are possible, up to `more`. */
  ghost function Count(e: Env, code: seq<Instr>, s: State, more: Option<nat>): (r: nat)
    requires SimpleLen(code) >= 0
    ensures more.Some? ==> r <= more.value
    decreases if s.pos <= |e.text.units| then |e.text.units| - s.pos else 0
  {
    if more == Some(0) then 0
    else
      var n := Next(e, code, s);
      if n.Some? && s.pos < n.value.pos <= |e.text.units| then 1 + Count(e, code, n.value, Fewer(more)) else 0
  }

  /** The state after `j` iterations. */
  ghost function After(e: Env, code: seq<Instr>, s: State, j: nat): (r: Option<State>)
    requires SimpleLen(code) >= 0
    decreases j
  {
    if j == 0 then Some(s)
    else
      var n := Next(e, code, s);
      if n.None? then None else After(e, code, n.value, j - 1)
  }

  /** The states after `c`, `c - 1`, ..., 0 iterations. */
  ghost function Chain(e: Env, code: seq<Instr>, s: State, c: nat): (r: seq<State>)
    requires SimpleLen(code) >= 0
    ensures r != []
    decreases c
  {
    if c == 0 || Next(e, code, s).None? then [s] else Chain(e, code, Next(e, code, s).value, c - 1) + [s]
  }

  lemma {:induction false} ChainHead(e: Env, code: seq<Instr>, s: State, c: nat)
    requires SimpleLen(code) >= 0 && After(e, code, s, c).Some?
    ensures c > 0 ==> After(e, code, s, c - 1).Some?
    ensures Chain(e, code, s, c)
         == [After(e, code, s, c).value] + if c == 0 then [] else Chain(e, code, s, c - 1)
    decreases c
  {
    hide Next;
    if c > 0 {
      ChainHead(e, code, Next(e, code, s).value, c - 1);
    }
  }

  lemma {:induction false} AfterLast(e: Env, code: seq<Instr>, s: State, c: nat)
    requires SimpleLen(code) >= 0 && After(e, code, s, c + 1).Some?
    ensures After(e, code, s, c).Some? && Next(e, code, After(e, code, s, c).value) == After(e, code, s, c + 1)
    decreases c
  {
    hide Next;
    if c > 0 {
      AfterLast(e, code, Next(e, code, s).value, c - 1);
    } else {
      assert After(e, code, Next(e, code, s).value, 0) == Next(e, code, s);
    }
  }

  lemma {:induction false} AfterValid(e: Env, a: Node, back: bool, cc: nat, code: seq<Instr>, s: State, j: nat)
    requires ValidNode(a) && cc + Groups(a) <= e.captureCount
    requires SimpleLen(code) >= 0 && FixedAtom(e, a, back, cc, code) && ValidState(e, s) && After(e, code, s, j).Some?
    ensures ValidState(e, After(e, code, s, j).value)
    ensures After(e, code, s, j).value.caps == s.caps
    decreases j
  {
    hide ValidState, FixedAtom, SimpleLen;
    if j > 0 {
      NextAt(e, a, back, cc, code, s);
      AfterValid(e, a, back, cc, code, Next(e, code, s).value, j - 1);
    }
  }

  lemma {:induction false} CountReached(e: Env, code: seq<Instr>, s: State, more: Option<nat>)
    requires SimpleLen(code) >= 0
    ensures After(e, code, s, Count(e, code, s, more)).Some?
    decreases Count(e, code, s, more)
  {
    hide Next;
    if Count(e, code, s, more) > 0 {
      CountReached(e, code, Next(e, code, s).value, Fewer(more));
    }
  }

  // ---- the reference side ----

  lemma {:induction false} OptionalIsChain(e: Env, a: Node, back: bool, cc: nat, code: seq<Instr>, more: Option<nat>, s: State)
    requires ValidNode(a) && cc + Groups(a) <= e.captureCount
    requires SimpleLen(code) >= 0 && FixedAtom(e, a, back, cc, code) && ValidState(e, s)
    ensures Optional(e, a, back, cc, more, true, s) == Chain(e, code, s, Count(e, code, s, more))
    decreases Count(e, code, s, more)
  {
    hide ValidState, FixedAtom, SimpleLen, Next, Matches, ValidNode, OptionalAll;
    if more != Some(0) {
      NextAt(e, a, back, cc, code, s);
      var n := Next(e, code, s);
      StatePos(e, s);
      AdvancingFrom(e, back, s.pos, Matches(e, a, back, cc, s));
      if n.None? {
        OptionalAllNone(e, a, back, cc, Fewer(more), true, s.pos, Room(e, back, s.pos));
        assert Advancing([], s.pos) == [];
        assert Optional(e, a, back, cc, more, true, s) == [] + [s];
      } else {
        var r := n.value;
        AdvancingAll([r], s.pos);
        OptionalIsChain(e, a, back, cc, code, Fewer(more), r);
        OptionalAllOne(e, a, back, cc, Fewer(more), true, s.pos, Room(e, back, s.pos), r);
      }
    }
  }

  lemma OptionalAllNone(e: Env, a: Node, back: bool, cc: nat, more: Option<nat>, greedy: bool, from: nat, room: nat)
    requires ValidNode(a) && cc + Groups(a) <= e.captureCount
    ensures OptionalAll(e, a, back, cc, more, greedy, from, room, []) == []
  {
  }

  lemma OptionalAllOne(e: Env, a: Node, back: bool, cc: nat, more: Option<nat>, greedy: bool, from: nat, room: nat, s: State)
    requires ValidNode(a) && cc + Groups(a) <= e.captureCount && ValidState(e, s)
    requires AllFrom(e, back, from, [s]) && Room(e, back, s.pos) < room
    ensures OptionalAll(e, a, back, cc, more, greedy, from, room, [s]) == Optional(e, a, back, cc, more, greedy, s)
  {
    hide Optional;
    OptionalAllNone(e, a, back, cc, more, greedy, from, room);
    assert [s][1..] == [];
    assert Optional(e, a, back, cc, more, greedy, [s][0]) + [] == Optional(e, a, back, cc, more, greedy, s);
  }

  lemma {:induction false} RepeatIsAfter(e: Env, a: Node, back: bool, cc: nat, code: seq<Instr>, n: nat, from: nat, s: State)
    requires ValidNode(a) && cc + Groups(a) <= e.captureCount
    requires SimpleLen(code) >= 0 && FixedAtom(e, a, back, cc, code) && ValidState(e, s) && Toward(back, from, s.pos)
    ensures AllFrom(e, back, from, [s])
    ensures Repeat(e, a, back, cc, n, from, [s])
         == if After(e, code, s, n).Some? then [After(e, code, s, n).value] else []
    decreases n
  {
    hide FixedAtom, SimpleLen, Next, Matches, ValidNode, MatchesAll;
    if n > 0 {
      NextAt(e, a, back, cc, code, s);
      MatchesAllSingle(e, a, back, cc, from, s);
      var r := Next(e, code, s);
      if r.Some? {
        assert AllFrom(e, back, from, Matches(e, a, back, cc, s));
        assert Matches(e, a, back, cc, s)[0] == r.value;
        RepeatIsAfter(e, a, back, cc, code, n - 1, from, r.value);
      } else {
        RepeatNothing(e, a, back, cc, n - 1, from);
      }
    }
  }

  function Less(more: Option<nat>, n: nat): (r: Option<nat>) {
    if more.None? || more.value < n then more else Some(more.value - n)
  }

  /** Counting from the start is counting from after the first `n` iterations, if there are that many. */
  lemma {:induction false} CountSplit(e: Env, a: Node, back: bool, cc: nat, code: seq<Instr>, s: State, n: nat, more: Option<nat>)
    requires ValidNode(a) && cc + Groups(a) <= e.captureCount
    requires SimpleLen(code) >= 0 && FixedAtom(e, a, back, cc, code) && ValidState(e, s)
    requires more.Some? ==> n <= more.value
    ensures if After(e, code, s, n).Some?
      then Count(e, code, s, more) == n + Count(e, code, After(e, code, s, n).value, Less(more, n))
      else Count(e, code, s, more) < n
    decreases n
  {
    hide ValidState, FixedAtom, SimpleLen, Next, Matches, ValidNode;
    if n > 0 {
      NextAt(e, a, back, cc, code, s);
      if Next(e, code, s).Some? {
        CountSplit(e, a, back, cc, code, Next(e, code, s).value, n - 1, Fewer(more));
      }
    }
  }

  // ---- the machine side ----

  /** The instruction and its atom, and the depths around them. */
  ghost predicate GreedyAt(m: Machine, pc: nat, atom: seq<Instr>, min: u32, max: u32, d: nat) {
    && SimpleLen(atom) > 0 && Len(atom) + 18 < 0x8000_0000 && 0 < max && min <= max
    && Decode(m.bc, pc) == Some(SimpleGreedy(ToU32(Len(atom) + 1), min, max, ToU32(SimpleLen(atom))))
    && CodeAt(m.bc, pc + 17, atom + [Instr.Match])
    && AtDepth(m.bc, pc, d) && AtDepth(m.bc, pc + 18 + Len(atom), d)
  }

  lemma GreedyParts(m: Machine, pc: nat, atom: seq<Instr>, min: u32, max: u32, d: nat)
    requires GreedyAt(m, pc, atom, min, max, d)
    ensures SimpleLen(atom) > 0 && AtDepth(m.bc, pc, d) && AtDepth(m.bc, pc + 18 + Len(atom), d)
  {
  }

  function Left(max: nat, q: nat): (r: Option<nat>)
    requires max == INFINITE || q < max
  {
    if max == INFINITE then None else Some(max - q)
  }

  lemma {:induction false} SimpleLenBelowLen(code: seq<Instr>)
    ensures SimpleLen(code) <= Len(code)
  {
    if code != [] {
      SimpleLenBelowLen(code[1..]);
    }
  }

  lemma GreedyStep(m: Machine, pc: nat, atom: seq<Instr>, min: u32, max: u32, q: nat, s: State, stk: seq<nat>, ss: seq<Saved>)
    requires GreedyAt(m, pc, atom, min, max, |stk|)
    ensures Step(m, Greedy(pc, q, s, stk, ss)) ==
      var i := SimpleGreedy(ToU32(Len(atom) + 1), min, max, ToU32(SimpleLen(atom)));
      if Next(m.env, atom, s).None? then LeaveGreedy(pc, i, q, s, stk, ss)
      else if q + 1 >= max && max != INFINITE then LeaveGreedy(pc, i, q + 1, Next(m.env, atom, s).value, stk, ss)
      else Greedy(pc, q + 1, Next(m.env, atom, s).value, stk, ss)
  {
    hide Decode, RunCode, RunSimple, SimpleLen, LeaveGreedy, CodeAt, ToU32, Len;
    SimpleLenMeaning(atom);
    RunSimpleRunsCode(m, pc + 17, atom, s.pos);
  }

  lemma LeaveOk(m: Machine, pc: nat, atom: seq<Instr>, min: u32, max: u32, q: nat, s: State, stk: seq<nat>, ss: seq<Saved>)
    requires GreedyAt(m, pc, atom, min, max, |stk|) && SavedOk(m.bc, ss)
    ensures Ok(m, LeaveGreedy(pc, SimpleGreedy(ToU32(Len(atom) + 1), min, max, ToU32(SimpleLen(atom))), q, s, stk, ss))
  {
    hide Decode, SimpleLen, CodeAt, AtDepth;
    JumpAhead(Len(atom) + 1);
  }

  lemma CountUnfold(e: Env, code: seq<Instr>, s: State, more: Option<nat>)
    requires SimpleLen(code) >= 0 && more != Some(0)
    requires Next(e, code, s).Some? ==> s.pos < Next(e, code, s).value.pos <= |e.text.units|
    ensures var n := Next(e, code, s);
      Count(e, code, s, more) == if n.None? then 0 else 1 + Count(e, code, n.value, Fewer(more))
  {
    hide SimpleLen, Next;
  }

  lemma CountNone(e: Env, code: seq<Instr>, s: State)
    requires SimpleLen(code) >= 0
    ensures Count(e, code, s, Some(0)) == 0
  {
  }

  lemma AfterUnfold(e: Env, code: seq<Instr>, s: State, j: nat)
    requires SimpleLen(code) >= 0
    ensures After(e, code, s, 0) == Some(s)
    ensures var n := Next(e, code, s);
      After(e, code, s, j + 1) == if n.None? then None else After(e, code, n.value, j)
  {
    hide SimpleLen, Next;
  }

  /** The loop of the instruction runs as many iterations as it can. */
  lemma {:induction false} GreedyCounts(m: Machine, a: Node, back: bool, cc: nat, pc: nat, atom: seq<Instr>, min: u32,
                                        max: u32, q: nat, s: State, stk: seq<nat>, ss: seq<Saved>)
    requires ValidNode(a) && cc + Groups(a) <= m.env.captureCount
    requires FixedAtom(m.env, a, back, cc, atom) && ValidState(m.env, s)
    requires GreedyAt(m, pc, atom, min, max, |stk|) && SavedOk(m.bc, ss)
    requires max == INFINITE || q < max
    ensures var c := Count(m.env, atom, s, Left(max, q));
      && After(m.env, atom, s, c).Some?
      && Reach(m, Greedy(pc, q, s, stk, ss),
          LeaveGreedy(pc, SimpleGreedy(ToU32(Len(atom) + 1), min, max, ToU32(SimpleLen(atom))), q + c,
            After(m.env, atom, s, c).value, stk, ss))
    decreases Count(m.env, atom, s, Left(max, q))
  {
    hide Step, LeaveGreedy, FixedAtom, SimpleLen, Next, ValidState, ValidNode, Decode, CodeAt, AtDepth, ToU32, Len, Reach,
      Count, After, InText, GreedyAt, SavedOk, Groups;
    GreedyParts(m, pc, atom, min, max, |stk|);
    var here := Greedy(pc, q, s, stk, ss);
    var i := SimpleGreedy(ToU32(Len(atom) + 1), min, max, ToU32(SimpleLen(atom)));
    GreedyStep(m, pc, atom, min, max, q, s, stk, ss);
    NextAt(m.env, a, back, cc, atom, s);
    var n := Next(m.env, atom, s);
    CountUnfold(m.env, atom, s, Left(max, q));
    if n.None? {
      AfterUnfold(m.env, atom, s, 0);
      LeaveOk(m, pc, atom, min, max, q, s, stk, ss);
      ReachOne(m, here);
    } else if q + 1 >= max && max != INFINITE {
      LeaveOk(m, pc, atom, min, max, q + 1, n.value, stk, ss);
      ReachOne(m, here);
      CountNone(m.env, atom, n.value);
      AfterUnfold(m.env, atom, n.value, 0);
      AfterUnfold(m.env, atom, s, 0);
    } else {
      AfterUnfold(m.env, atom, s, Count(m.env, atom, n.value, Left(max, q + 1)));
      GreedyCounts(m, a, back, cc, pc, atom, min, max, q + 1, n.value, stk, ss);
      ReachStep(m, here,
        LeaveGreedy(pc, i, q + Count(m.env, atom, s, Left(max, q)),
          After(m.env, atom, s, Count(m.env, atom, s, Left(max, q))).value, stk, ss));
    }
  }

  function GreedyEntry(pc: nat, s: State, stk: seq<nat>, count: nat): (r: Saved) {
    Saved(GreedyPoint, pc, s.pos, s.caps, stk, count)
  }

  /** What is left on the state stack with `count` iterations still to give back. */
  function Pending(pc: nat, s: State, stk: seq<nat>, count: nat): (r: seq<Saved>) {
    if count == 0 then [] else [GreedyEntry(pc, s, stk, count)]
  }

  lemma GiveBack(m: Machine, pc: nat, atom: seq<Instr>, min: u32, max: u32, s: State, t: State, count: nat, stk: seq<nat>,
                 ss: seq<Saved>)
    requires GreedyAt(m, pc, atom, min, max, |stk|) && count > 0
    requires s.caps == t.caps && s.pos <= |m.env.text.units|
    requires Backward(m.env.text, s.pos, SimpleLen(atom)) == Some(t.pos)
    ensures Step(m, Fail(ss + [GreedyEntry(pc, s, stk, count)]))
         == Run(pc + 18 + Len(atom), t, stk, ss + Pending(pc, t, stk, count - 1))
  {
    hide Decode, SimpleLen, CodeAt, AtDepth, Backward, Len;
    var all := ss + [GreedyEntry(pc, s, stk, count)];
    assert Last(all) == GreedyEntry(pc, s, stk, count) && Front(all) == ss;
    SimpleLenBelowLen(atom);
    JumpAhead(Len(atom) + 1);
    assert ToU32(SimpleLen(atom)) == SimpleLen(atom);
    assert ss + [] == ss;
  }

  /** With `c` iterations beyond `s` to give back, the machine arrives with each of them in turn. */
  lemma {:induction false} DescendYields(m: Machine, a: Node, back: bool, cc: nat, pc: nat, atom: seq<Instr>, min: u32,
                                         max: u32, s: State, c: nat, stk: seq<nat>, ss: seq<Saved>)
    requires ValidNode(a) && cc + Groups(a) <= m.env.captureCount
    requires FixedAtom(m.env, a, back, cc, atom) && ValidState(m.env, s) && After(m.env, atom, s, c).Some?
    requires GreedyAt(m, pc, atom, min, max, |stk|) && SavedOk(m.bc, ss)
    ensures var t := After(m.env, atom, s, c).value;
      Yields(m, ss, Run(pc + 18 + Len(atom), t, stk, ss + Pending(pc, t, stk, c)), pc + 18 + Len(atom), stk,
        Chain(m.env, atom, s, c))
    decreases c
  {
    hide Step, FixedAtom, SimpleLen, Next, ValidNode, Decode, CodeAt, AtDepth, Reach, Len, Backward, After, Chain,
      ValidState, InText, GreedyAt, SavedOk, Groups;
    var e := m.env;
    GreedyParts(m, pc, atom, min, max, |stk|);
    var target := pc + 18 + Len(atom);
    var t := After(e, atom, s, c).value;
    ChainHead(e, atom, s, c);
    if c == 0 {
      AfterZero(e, atom, s);
      assert ss + Pending(pc, t, stk, 0) == ss;
      YieldsHere(m, ss, target, stk, t);
      assert [t] + [] == [t];
    } else {
      AfterLast(e, atom, s, c - 1);
      AfterValid(e, a, back, cc, atom, s, c - 1);
      AfterValid(e, a, back, cc, atom, s, c);
      var u := After(e, atom, s, c - 1).value;
      NextAt(e, a, back, cc, atom, u);
      GiveBack(m, pc, atom, min, max, t, u, c, stk, ss);
      DescendYields(m, a, back, cc, pc, atom, min, max, s, c - 1, stk, ss);
      var extra := Pending(pc, t, stk, c);
      var f := Fail(ss + extra);
      assert Ok(m, f) by { PendingOk(m, pc, t, stk, c, ss); }
      PendingOk(m, pc, u, stk, c - 1, ss);
      ReachOne(m, f);
      YieldsAfter(m, ss, f, Step(m, f), target, stk, Chain(e, atom, s, c - 1));
      var here := Run(target, t, stk, ss + extra);
      ReachSelf(m, here);
      var outs := Chain(e, atom, s, c);
      assert outs[0] == t && outs[1..] == Chain(e, atom, s, c - 1);
      assert AllChoices(extra);
    }
  }

  lemma AfterZero(e: Env, code: seq<Instr>, s: State)
    requires SimpleLen(code) >= 0
    ensures After(e, code, s, 0) == Some(s)
  {
  }

  lemma ReachSelf(m: Machine, c: Config)
    requires Ok(m, c)
    ensures Reach(m, c, c)
  {
    assert Path(m, 0, c, c);
  }

  lemma PendingOk(m: Machine, pc: nat, s: State, stk: seq<nat>, count: nat, ss: seq<Saved>)
    requires AtDepth(m.bc, pc, |stk|) && SavedOk(m.bc, ss)
    ensures SavedOk(m.bc, ss + Pending(pc, s, stk, count))
  {
  }

  /** The instruction enumerates the matches of the greedy quantifier. */
  lemma GreedyDoes(m: Machine, n: Node, back: bool, cc: nat, pc: nat, s: State, stk: seq<nat>)
    requires n.Quant? && ValidNode(n) && cc + Groups(n) <= m.env.captureCount <= 0x100 && ValidState(m.env, s)
    requires n.greedy && n.max > 0
    requires GreedyAt(m, pc, Code(m.env.flags, n.atom, back, cc), n.min, n.max, |stk|)
    ensures Does(m, pc, stk, s, pc + 18 + Len(Code(m.env.flags, n.atom, back, cc)), stk, Matches(m.env, n, back, cc, s))
  {
    hide Code, GreedyAt, Len, Matches, Yields, ValidState, SavedOk;
    forall ss | SavedOk(m.bc, ss)
      ensures Yields(m, ss, Run(pc, s, stk, ss), pc + 18 + Len(Code(m.env.flags, n.atom, back, cc)), stk,
        Matches(m.env, n, back, cc, s))
    {
      GreedyYields(m, n, back, cc, pc, Code(m.env.flags, n.atom, back, cc), s, stk, ss);
    }
  }

  lemma GreedyYields(m: Machine, n: Node, back: bool, cc: nat, pc: nat, atom: seq<Instr>, s: State, stk: seq<nat>,
                     ss: seq<Saved>)
    requires n.Quant? && ValidNode(n) && cc + Groups(n) <= m.env.captureCount <= 0x100 && ValidState(m.env, s)
    requires n.greedy && n.max > 0 && atom == Code(m.env.flags, n.atom, back, cc) && SavedOk(m.bc, ss)
    requires GreedyAt(m, pc, atom, n.min, n.max, |stk|)
    ensures Yields(m, ss, Run(pc, s, stk, ss), pc + 18 + Len(atom), stk, Matches(m.env, n, back, cc, s))
  {
    hide Step, FixedAtom, SimpleLen, Next, Decode, CodeAt, AtDepth, Reach, Len, After, Chain, Matches, Count,
      ValidState, Code, ToU32, Yields, LeaveGreedy;
    var e, a := m.env, n.atom;
    SimpleIsFixed(e, a, back, cc);
    GreedyMatches(e, n, back, cc, atom, s);
    StatePos(e, s);
    var i := SimpleGreedy(ToU32(Len(atom) + 1), n.min, n.max, ToU32(SimpleLen(atom)));
    var start := Run(pc, s, stk, ss);
    StartGreedy(m, pc, i, s, stk, ss);
    GreedyCounts(m, a, back, cc, pc, atom, n.min, n.max, 0, s, stk, ss);
    LeaveYields(m, a, back, cc, pc, atom, n.min, n.max, s, stk, ss);
    var q := Count(e, atom, s, Left(n.max, 0));
    var out := LeaveGreedy(pc, i, q, After(e, atom, s, q).value, stk, ss);
    ReachStep(m, start, out);
    YieldsAfter(m, ss, start, out, pc + 18 + Len(atom), stk, Matches(e, n, back, cc, s));
  }

  lemma StartGreedy(m: Machine, pc: nat, i: Instr, s: State, stk: seq<nat>, ss: seq<Saved>)
    requires Decode(m.bc, pc) == Some(i) && i.SimpleGreedy? && s.pos <= |m.env.text.units|
    ensures Step(m, Run(pc, s, stk, ss)) == Greedy(pc, 0, s, stk, ss)
  {
    hide Decode;
  }

  /** Once the loop is left, the machine enumerates the chain of the iterations beyond the minimum. */
  lemma LeaveYields(m: Machine, a: Node, back: bool, cc: nat, pc: nat, atom: seq<Instr>, min: u32, max: u32, s: State,
                    stk: seq<nat>, ss: seq<Saved>)
    requires ValidNode(a) && cc + Groups(a) <= m.env.captureCount <= 0x100 && ValidState(m.env, s)
    requires SimpleLen(atom) >= 0 && FixedAtom(m.env, a, back, cc, atom) && max <= INFINITE
    requires GreedyAt(m, pc, atom, min, max, |stk|) && SavedOk(m.bc, ss)
    ensures var q := Count(m.env, atom, s, Left(max, 0));
      && After(m.env, atom, s, q).Some?
      && (q >= min ==> After(m.env, atom, s, min).Some?)
      && Yields(m, ss, LeaveGreedy(pc, SimpleGreedy(ToU32(Len(atom) + 1), min, max, ToU32(SimpleLen(atom))), q,
                         After(m.env, atom, s, q).value, stk, ss),
           pc + 18 + Len(atom), stk,
           if q < min then [] else Chain(m.env, atom, After(m.env, atom, s, min).value, q - min))
  {
    hide Step, FixedAtom, SimpleLen, Next, ValidNode, Decode, CodeAt, AtDepth, Reach, Len, After, Chain, Count,
      ValidState, ToU32, Yields;
    var e := m.env;
    var q := Count(e, atom, s, Left(max, 0));
    CountReached(e, atom, s, Left(max, 0));
    CountSplit(e, a, back, cc, atom, s, min, Left(max, 0));
    JumpAhead(Len(atom) + 1);
    var t := After(e, atom, s, q).value;
    if q < min {
      YieldsNothing(m, ss, pc + 18 + Len(atom), stk);
    } else {
      AfterSplit(e, atom, s, min, q - min);
      AfterValid(e, a, back, cc, atom, s, min);
      DescendYields(m, a, back, cc, pc, atom, min, max, After(e, atom, s, min).value, q - min, stk, ss);
      assert ss + [] == ss;
    }
  }

  lemma {:induction false} AfterSplit(e: Env, code: seq<Instr>, s: State, j: nat, k: nat)
    requires SimpleLen(code) >= 0 && After(e, code, s, j).Some?
    ensures After(e, code, s, j + k) == After(e, code, After(e, code, s, j).value, k)
    decreases j
  {
    hide Next;
    if j > 0 {
      AfterSplit(e, code, Next(e, code, s).value, j - 1, k);
    }
  }

  /** The reference semantics of a greedy quantifier over a simple atom. */
  lemma GreedyMatches(e: Env, n: Node, back: bool, cc: nat, atom: seq<Instr>, s: State)
    requires n.Quant? && ValidNode(n) && cc + Groups(n) <= e.captureCount <= 0x100 && ValidState(e, s)
    requires n.greedy && n.max > 0 && atom == Code(e.flags, n.atom, back, cc)
    requires SimpleLen(atom) >= 0 && FixedAtom(e, n.atom, back, cc, atom)
    ensures Matches(e, n, back, cc, s) ==
      var q := Count(e, atom, s, Left(n.max, 0));
      var base := After(e, atom, s, n.min);
      if q < n.min || base.None? then [] else Chain(e, atom, base.value, q - n.min)
    ensures Count(e, atom, s, Left(n.max, 0)) >= n.min ==> After(e, atom, s, n.min).Some?
  {
    hide SimpleLen, Next, After, Chain, Count, ValidState, FixedAtom, Optional, OptionalAll, Repeat, Code;
    var a := n.atom;
    StatePos(e, s);
    SimpleNoGroups(e.flags, a, back, cc);
    var more := Left(n.max, 0);
    CountSplit(e, a, back, cc, atom, s, n.min, more);
    RepeatIsAfter(e, a, back, cc, atom, n.min, s.pos, s);
    var base := After(e, atom, s, n.min);
    if base.Some? {
      AfterValid(e, a, back, cc, atom, s, n.min);
      OptionalIsChain(e, a, back, cc, atom, Less(more, n.min), base.value);
      RepeatWithinRoom(e, a, back, cc, n.min, s, base.value);
      OptionalAllOne(e, a, back, cc, Less(more, n.min), true, s.pos, Room(e, back, s.pos) + 1, base.value);
    } else {
      OptionalAllNone(e, a, back, cc, Less(more, n.min), true, s.pos, Room(e, back, s.pos) + 1);
    }
  }

  lemma RepeatWithinRoom(e: Env, a: Node, back: bool, cc: nat, n: nat, s: State, r: State)
    requires ValidNode(a) && cc + Groups(a) <= e.captureCount && ValidState(e, s)
    requires AllFrom(e, back, s.pos, [s]) && Repeat(e, a, back, cc, n, s.pos, [s]) == [r]
    ensures AllFrom(e, back, s.pos, [r]) && r.pos <= |e.text.units| && Room(e, back, r.pos) < Room(e, back, s.pos) + 1
  {
    hide Repeat;
    assert ValidState(e, [r][0]) && Toward(back, s.pos, [r][0].pos);
  }

  // ---- a start between the halves of a surrogate pair ----

  /** Giving back one iteration of an atom returns to where the iteration began exactly when that was a character
      boundary; otherwise it goes to the start of the character there. */
  lemma GiveBackReturns(m: Machine, pc: nat, atom: seq<Instr>, min: u32, max: u32, p: nat, caps: Captures, count: nat,
                        stk: seq<nat>, ss: seq<Saved>)
    requires GreedyAt(m, pc, atom, min, max, |stk|) && count > 0
    requires p <= |m.env.text.units| && Forward(m.env.text, p, SimpleLen(atom)).Some?
    ensures var t := m.env.text; var q := Forward(t, p, SimpleLen(atom)).value;
      exists r: nat ::
        && Step(m, Fail(ss + [GreedyEntry(pc, State(q, caps), stk, count)]))
           == Run(pc + 18 + Len(atom), State(r, caps), stk, ss + Pending(pc, State(r, caps), stk, count - 1))
        && (r == p <==> Boundary(t, p)) && (r == p - 1 <==> !Boundary(t, p))
  {
    hide GreedyAt, Step, SimpleLen, Len, Forward, Backward, Boundary;
    var t := m.env.text;
    GreedyParts(m, pc, atom, min, max, |stk|);
    var q := Forward(t, p, SimpleLen(atom)).value;
    ForwardThenBack(t, p, SimpleLen(atom));
    var r := if Boundary(t, p) then p else p - 1;
    GiveBack(m, pc, atom, min, max, State(q, caps), State(r, caps), count, stk, ss);
  }
}
