/** Whole programs: what a compiled pattern answers on a subject, and what the depths of its states are bounded by. */
module RegexProgram {
  import opened Bytes
  import opened RegexCode
  import opened RegexText
  import opened RegexSyntax
  import opened RegexReference
  import opened RegexMachine
  import opened RegexAnalysis
  import opened RegexDepth
  import opened RegexFragments
  import opened RegexLoops
  import opened RegexCorrect
  import opened RegexTheorem

  /** No group has matched. */
  function NoCaptures(e: Env): (r: Captures)
    ensures |r| == 2 * e.captureCount
  {
    seq(2 * e.captureCount, k => None)
  }

  /** The matches of the whole pattern that start at `p`: it is the body of group 0. */
  function Attempts(e: Env, n: Node, p: nat): (r: seq<State>)
    requires ValidNode(n) && 1 + Groups(n) <= e.captureCount && p <= |e.text.units|
    ensures AllWithin(e, false, p, r)
    ensures Boundary(e.text, p) ==> AllFrom(e, false, p, r)
  {
    Matches(e, Node.Capture(n), false, 0, State(p, NoCaptures(e)))
  }

  /** Without the sticky flag the start positions are tried from left to right. */
  function SearchFrom(e: Env, n: Node, p: nat): (r: seq<State>)
    requires ValidNode(n) && 1 + Groups(n) <= e.captureCount && p <= |e.text.units|
    ensures AllWithin(e, false, p, r)
    ensures Boundary(e.text, p) ==> AllFrom(e, false, p, r)
    decreases |e.text.units| - p
  {
    Attempts(e, n, p)
    + if p == |e.text.units| then [] else
        assert Boundary(e.text, p) ==> Boundary(e.text, NextPos(e.text, p, |e.text.units|)) by {
          if Boundary(e.text, p) { NextKeepsBoundary(e.text, p, |e.text.units|); }
        }
        SearchFrom(e, n, NextPos(e.text, p, |e.text.units|))
  }

  function Outcomes(e: Env, n: Node, sticky: bool, p: nat): (r: seq<State>)
    requires ValidNode(n) && 1 + Groups(n) <= e.captureCount && p <= |e.text.units|
    ensures AllWithin(e, false, p, r)
    ensures Boundary(e.text, p) ==> AllFrom(e, false, p, r)
  {
    if sticky then Attempts(e, n, p) else SearchFrom(e, n, p)
  }

  /** The answer of a match: the captures of the first outcome. */
  function Answer(rs: seq<State>): (r: Option<Captures>) {
    if rs == [] then None else Some(rs[0].caps)
  }

  /** No start position from `p` on has a match. */
  ghost predicate NoMatchFrom(e: Env, n: Node, p: nat)
    requires ValidNode(n) && 1 + Groups(n) <= e.captureCount && p <= |e.text.units|
  {
    forall k: nat, q: nat | Forward(e.text, p, k) == Some(q) :: Attempts(e, n, q) == []
  }

  /** `q`, the `k`-th character position from `p` on, is the first start position that has a match. */
  ghost predicate FirstMatchAt(e: Env, n: Node, p: nat, k: nat, q: nat)
    requires ValidNode(n) && 1 + Groups(n) <= e.captureCount && p <= |e.text.units|
  {
    && Forward(e.text, p, k) == Some(q) && Attempts(e, n, q) != []
    && forall j: nat, r: nat | j < k && Forward(e.text, p, j) == Some(r) :: Attempts(e, n, r) == []
  }

  /** What the answer means without the sticky flag: it comes from the first start position, counted in
      characters, at which the pattern matches at all, and is the preferred match there. */
  lemma {:induction false} SearchMeaning(e: Env, n: Node, p: nat)
    requires ValidNode(n) && 1 + Groups(n) <= e.captureCount && p <= |e.text.units|
    ensures Answer(SearchFrom(e, n, p)).None? <==> NoMatchFrom(e, n, p)
    ensures Answer(SearchFrom(e, n, p)).Some? ==>
      exists k: nat, q: nat ::
        FirstMatchAt(e, n, p, k, q) && Answer(SearchFrom(e, n, p)) == Some(Attempts(e, n, q)[0].caps)
    decreases |e.text.units| - p
  {
    hide Attempts, ValidNode, Groups;
    var t, len := e.text, |e.text.units|;
    assert Forward(t, p, 0) == Some(p);
    var here := Attempts(e, n, p);
    if here != [] {
      assert SearchFrom(e, n, p)[0] == here[0];
      assert FirstMatchAt(e, n, p, 0, p);
      assert !NoMatchFrom(e, n, p);
    } else if p == len {
      forall k: nat, q: nat | Forward(t, p, k) == Some(q) ensures Attempts(e, n, q) == [] {
        assert k == 0;
      }
      assert NoMatchFrom(e, n, p);
    } else {
      var p1 := NextPos(t, p, len);
      SearchMeaning(e, n, p1);
      assert SearchFrom(e, n, p) == SearchFrom(e, n, p1);
      SearchLater(e, n, p, p1);
    }
  }

  lemma SearchLater(e: Env, n: Node, p: nat, p1: nat)
    requires ValidNode(n) && 1 + Groups(n) <= e.captureCount && p <= |e.text.units|
    requires p < |e.text.units| && Attempts(e, n, p) == [] && p1 == NextPos(e.text, p, |e.text.units|)
    requires SearchFrom(e, n, p) == SearchFrom(e, n, p1)
    requires Answer(SearchFrom(e, n, p1)).None? <==> NoMatchFrom(e, n, p1)
    requires Answer(SearchFrom(e, n, p1)).Some? ==>
      exists k: nat, q: nat ::
        FirstMatchAt(e, n, p1, k, q) && Answer(SearchFrom(e, n, p1)) == Some(Attempts(e, n, q)[0].caps)
    ensures Answer(SearchFrom(e, n, p)).None? <==> NoMatchFrom(e, n, p)
    ensures Answer(SearchFrom(e, n, p)).Some? ==>
      exists k: nat, q: nat ::
        FirstMatchAt(e, n, p, k, q) && Answer(SearchFrom(e, n, p)) == Some(Attempts(e, n, q)[0].caps)
  {
    hide Attempts, ValidNode, Groups, SearchFrom, NoMatchFrom;
    LaterStarts(e, n, p);
    if Answer(SearchFrom(e, n, p1)).Some? {
      var k: nat, q: nat :| FirstMatchAt(e, n, p1, k, q)
        && Answer(SearchFrom(e, n, p1)) == Some(Attempts(e, n, q)[0].caps);
      assert FirstMatchAt(e, n, p, k + 1, q);
    }
  }

  lemma LaterStarts(e: Env, n: Node, p: nat)
    requires ValidNode(n) && 1 + Groups(n) <= e.captureCount && p <= |e.text.units|
    requires p < |e.text.units| && Attempts(e, n, p) == []
    ensures var p1 := NextPos(e.text, p, |e.text.units|);
      && (NoMatchFrom(e, n, p) <==> NoMatchFrom(e, n, p1))
      && forall k: nat, q: nat :: FirstMatchAt(e, n, p1, k, q) ==> FirstMatchAt(e, n, p, k + 1, q)
  {
    hide Attempts, ValidNode, Groups;
    var t, p1 := e.text, NextPos(e.text, p, |e.text.units|);
    assert Forward(t, p, 0) == Some(p);
    if NoMatchFrom(e, n, p) {
      forall k: nat, q: nat | Forward(t, p1, k) == Some(q) ensures Attempts(e, n, q) == [] {
        assert Forward(t, p, k + 1) == Some(q);
      }
    }
    if NoMatchFrom(e, n, p1) {
      forall k: nat, q: nat | Forward(t, p, k) == Some(q) ensures Attempts(e, n, q) == [] {
        if k > 0 {
          assert Forward(t, p1, k - 1) == Some(q);
        }
      }
    }
    forall k: nat, q: nat | FirstMatchAt(e, n, p1, k, q) ensures FirstMatchAt(e, n, p, k + 1, q) {
      assert Forward(t, p, k + 1) == Some(q);
      forall j: nat, r: nat | j < k + 1 && Forward(t, p, j) == Some(r)
        ensures Attempts(e, n, r) == []
      {
        if j > 0 {
          assert Forward(t, p1, j - 1) == Some(r);
        }
      }
    }
  }

  lemma BoundaryBound(t: Text, p: nat)
    requires Boundary(t, p)
    ensures p <= |t.units|
  {
  }

  lemma NextKeeps(t: Text, p: nat)
    requires Boundary(t, p) && p < |t.units|
    ensures Boundary(t, NextPos(t, p, |t.units|))
  {
    NextKeepsBoundary(t, p, |t.units|);
  }

  // ---- the program ----

  /** The machine runs the code of `n`, compiled for the machine's flags and group count. */
  ghost predicate Compiled(m: Machine, n: Node, sticky: bool) {
    && ValidNode(n) && 1 + Groups(n) == m.env.captureCount <= 0x100
    && m.bc == Assemble(ProgramCode(m.env.flags, n, sticky))
    && |m.bc| < 0x8000_0000
  }

  function BodyStart(sticky: bool): (r: nat) { if sticky then 0 else 11 }

  lemma {:induction false} CaptureValid(n: Node)
    ensures ValidNode(n) ==> ValidNode(Node.Capture(n))
    ensures Groups(Node.Capture(n)) == 1 + Groups(n)
  {
  }

  lemma ProgramShape(f: Flags, n: Node, sticky: bool)
    requires ValidNode(n) && 1 + Groups(n) <= 0x100
    ensures ValidNode(Node.Capture(n)) && Groups(Node.Capture(n)) == 1 + Groups(n)
    ensures ProgramCode(f, n, sticky)
         == (if sticky then [] else SearchCode()) + (Code(f, Node.Capture(n), false, 0) + [Instr.Match])
  {
    CaptureValid(n);
    hide SearchCode, Code, ValidNode, Groups;
    CaptureUnfold(f, Node.Capture(n), false, 0);
    var prefix := if sticky then [] else SearchCode();
    assert prefix + [Instr.Save(false, 0)] + Code(f, n, false, 1) + [Instr.Save(true, 0), Instr.Match]
        == prefix + (([Instr.Save(false, 0)] + Code(f, n, false, 1) + [Instr.Save(true, 0)]) + [Instr.Match]);
  }

  /** The addresses of a compiled program. */
  lemma ProgramLayout(m: Machine, n: Node, sticky: bool)
    requires Compiled(m, n, sticky)
    ensures ValidNode(Node.Capture(n)) && Groups(Node.Capture(n)) == m.env.captureCount
    ensures CodeAt(m.bc, 0, ProgramCode(m.env.flags, n, sticky))
    ensures !sticky ==> CodeAt(m.bc, 0, SearchCode())
    ensures var code := Code(m.env.flags, Node.Capture(n), false, 0); var p0 := BodyStart(sticky);
      && CodeAt(m.bc, p0, code) && Decode(m.bc, p0 + Len(code)) == Some(Instr.Match)
      && |m.bc| == p0 + Len(code) + 1
  {
    hide Assemble, Len, Decode, WellFormed, AllWellFormed, SearchCode, CodeAt, ValidNode, Groups, ProgramCode;
    CompiledParts(m, n, sticky);
    var f := m.env.flags;
    var program := ProgramCode(f, n, sticky);
    ProgramShape(f, n, sticky);
    ProgramWellFormed(f, n, sticky);
    assert m.bc[0..0 + Len(program)] == Assemble(program);
    AssembledCodeAt(m.bc, 0, program);
    var prefix := if sticky then [] else SearchCode();
    var code := Code(f, Node.Capture(n), false, 0);
    SearchLen();
    LenNothing();
    CodeAtConcat(m.bc, 0, prefix, code + [Instr.Match]);
    CodeAtConcat(m.bc, BodyStart(sticky), code, [Instr.Match]);
    OneInstr(m.bc, BodyStart(sticky) + Len(code), Instr.Match);
    LenConcat(prefix, code + [Instr.Match]);
    LenConcat(code, [Instr.Match]);
  }

  lemma CompiledParts(m: Machine, n: Node, sticky: bool)
    requires Compiled(m, n, sticky)
    ensures ValidNode(n) && 1 + Groups(n) == m.env.captureCount <= 0x100
    ensures m.bc == Assemble(ProgramCode(m.env.flags, n, sticky)) && |m.bc| < 0x8000_0000
  {
  }

  lemma SearchLen()
    ensures Len(SearchCode()) == 11
  {
  }

  lemma SearchLayout(bc: seq<u8>)
    requires CodeAt(bc, 0, SearchCode())
    ensures Decode(bc, 0) == Some(Instr.Split(false, 6))
    ensures Decode(bc, 5) == Some(Instr.Any)
    ensures Decode(bc, 6) == Some(Instr.Goto(Behind(11)))
    ensures AtDepth(bc, 0, 0) && AtDepth(bc, 5, 0) && AtDepth(bc, 6, 0) && AtDepth(bc, 11, 0)
  {
    hide Decode, AtDepth;
    var code := SearchCode();
    assert code[1..][0] == Instr.Any && code[1..][1..][0] == Instr.Goto(Behind(11));
    Depth0(bc);
    DepthNext(bc, 0, 0, Instr.Split(false, 6));
    DepthNext(bc, 5, 0, Instr.Any);
    DepthNext(bc, 6, 0, Instr.Goto(Behind(11)));
  }

  lemma Depth0(bc: seq<u8>)
    ensures AtDepth(bc, 0, 0)
  {
  }

  lemma NoCapturesValid(e: Env, p: nat)
    requires Boundary(e.text, p)
    ensures ValidState(e, State(p, NoCaptures(e)))
  {
  }

  /** The code of the pattern, from its start to the final `match`. */
  lemma AttemptDoes(m: Machine, n: Node, sticky: bool, p: nat)
    requires Compiled(m, n, sticky) && Boundary(m.env.text, p)
    ensures AtDepth(m.bc, BodyStart(sticky), 0) && AtDepth(m.bc, |m.bc| - 1, 0)
    ensures Does(m, BodyStart(sticky), [], State(p, NoCaptures(m.env)), |m.bc| - 1, [], Attempts(m.env, n, p))
  {
    hide Code, CodeAt, Does, AtDepth, ValidState, Len, Decode, Matches, ValidNode, Groups, Balanced, Runs, Compiled, SearchCode;
    CompiledParts(m, n, sticky);
    ProgramLayout(m, n, sticky);
    var whole := Node.Capture(n);
    var p0 := BodyStart(sticky);
    var code := Code(m.env.flags, whole, false, 0);
    Depth0(m.bc);
    if !sticky {
      SearchLayout(m.bc);
    }
    CodeBalanced(m.env.flags, whole, false, 0);
    BalancedPast(m.bc, p0, code, 0);
    NodeRuns(m, whole, false, 0, p0);
    NoCapturesValid(m.env, p);
    var none: seq<nat> := [];
    assert |none| == 0;
    RunsAt(m, whole, false, 0, p0, State(p, NoCaptures(m.env)), none);
  }

  /** One round of the search loop. */
  lemma {:induction false} SearchDoes(m: Machine, n: Node, p: nat)
    requires Compiled(m, n, false) && Boundary(m.env.text, p)
    ensures ValidNode(n) && 1 + Groups(n) <= m.env.captureCount
    ensures Does(m, 0, [], State(p, NoCaptures(m.env)), |m.bc| - 1, [], SearchFrom(m.env, n, p))
    decreases |m.env.text.units| - p
  {
    hide Code, CodeAt, Does, AtDepth, ValidState, Decode, ValidNode, Groups, Compiled, SearchCode, Attempts, Moves, Dies;
    CompiledParts(m, n, false);
    ProgramLayout(m, n, false);
    SearchLayout(m.bc);
    AttemptDoes(m, n, false, p);
    BoundaryBound(m.env.text, p);
    var t, len := m.env.text, |m.env.text.units|;
    var s := State(p, NoCaptures(m.env));
    var none: seq<nat> := [];
    assert |none| == 0;
    var end := |m.bc| - 1;
    var later := if p == len then [] else (NextKeeps(t, p); SearchFrom(m.env, n, NextPos(t, p, len)));
    AnyStep(m, 5, s, none);
    if p == len {
      DoesFail(m, 5, none, s, end, none);
    } else {
      NextKeeps(t, p);
      var s1 := s.(pos := NextPos(t, p, len));
      SearchDoes(m, n, s1.pos);
      BackToStart(m, s1, none);
      DoesAfterMove(m, 6, none, s1, 0, none, s1, end, none, later);
      DoesAfterMove(m, 5, none, s, 6, none, s1, end, none, later);
    }
    JumpSix();
    DoesSplit(m, 0, none, s, false, 6, 11, end, none, later, Attempts(m.env, n, p));
  }

  lemma JumpSix()
    ensures ToI32(6) == 6
  {
  }

  lemma AnyStep(m: Machine, pc: nat, s: State, stk: seq<nat>)
    requires Decode(m.bc, pc) == Some(Instr.Any) && s.pos <= |m.env.text.units|
    ensures if s.pos == |m.env.text.units| then Dies(m, pc, stk, s)
      else Moves(m, pc, stk, s, pc + 1, stk, s.(pos := NextPos(m.env.text, s.pos, |m.env.text.units|)))
  {
    hide Decode;
  }

  lemma BackToStart(m: Machine, s: State, stk: seq<nat>)
    requires Decode(m.bc, 6) == Some(Instr.Goto(Behind(11))) && s.pos <= |m.env.text.units|
    ensures Moves(m, 6, stk, s, 0, stk, s)
  {
    hide Decode, Behind;
    JumpBack(0, 11);
    MovesGoto(m, 6, stk, s, Behind(11));
  }

  function Start(e: Env, p: nat): (c: Config) {
    Run(0, State(p, NoCaptures(e)), [], [])
  }

  /** Compiler correctness. From every start position on a character boundary the machine halts, and
      its answer is the first outcome of the reference semantics; no state on the way is stuck or
      departs from the computed stack depths. */
  lemma CompilerCorrect(m: Machine, n: Node, sticky: bool, p: nat)
    requires Compiled(m, n, sticky) && Boundary(m.env.text, p)
    ensures ValidNode(n) && 1 + Groups(n) <= m.env.captureCount
    ensures Reach(m, Start(m.env, p), Halt(Answer(Outcomes(m.env, n, sticky, p))))
  {
    hide Code, CodeAt, AtDepth, ValidState, Decode, ValidNode, Groups, Compiled, Attempts, SearchFrom, Step, Reach, ProgramCode;
    CompiledParts(m, n, sticky);
    AttemptDoes(m, n, sticky, p);
    ProgramLayout(m, n, sticky);
    if !sticky {
      SearchDoes(m, n, p);
    }
    var outs := Outcomes(m.env, n, sticky, p);
    PositionsBound(m.env, p, outs);
    var none: seq<Saved> := [];
    assert SavedOk(m.bc, none);
    assert Yields(m, none, Start(m.env, p), |m.bc| - 1, [], outs);
    FinishReach(m, |m.bc| - 1, Start(m.env, p), outs);
  }

  lemma PositionsBound(e: Env, p: nat, rs: seq<State>)
    requires AllFrom(e, false, p, rs)
    ensures forall k :: 0 <= k < |rs| ==> rs[k].pos <= |e.text.units|
  {
  }

  /** Arriving at the final `match` ends the run with the captures; failing with nothing left ends it without. */
  lemma FinishReach(m: Machine, end: nat, start: Config, outs: seq<State>)
    requires Yields(m, [], start, end, [], outs)
    requires Decode(m.bc, end) == Some(Instr.Match)
    requires forall k :: 0 <= k < |outs| ==> outs[k].pos <= |m.env.text.units|
    ensures Reach(m, start, Halt(Answer(outs)))
  {
    hide Reach, Decode, AtDepth;
    if outs == [] {
      ReachOne(m, Fail([]));
      ReachTrans(m, start, Fail([]), Halt(None));
    } else {
      var extra :| AllChoices(extra) && Reach(m, start, Run(end, outs[0], [], [] + extra));
      assert [] + extra == extra;
      var c := Run(end, outs[0], [], extra);
      ReachOk(m, start, c);
      MatchStep(m, end, outs[0], [], extra);
      AcceptUnwinds(m, outs[0].caps, [], extra);
      ReachStep(m, c, Accept(outs[0].caps, []));
      ReachOne(m, Accept(outs[0].caps, []));
      ReachTrans(m, start, c, Accept(outs[0].caps, []));
      ReachTrans(m, start, Accept(outs[0].caps, []), Halt(Some(outs[0].caps)));
    }
  }

  // ---- all states of a run ----

  function Iterate(m: Machine, k: nat, c: Config): (r: Config)
    decreases k
  {
    if k == 0 then c else Iterate(m, k - 1, Step(m, c))
  }

  lemma {:induction false} PathStates(m: Machine, n: nat, a: Config, r: Option<Captures>, k: nat)
    requires Path(m, n, a, Halt(r))
    ensures Ok(m, Iterate(m, k, a))
    ensures k >= n ==> Iterate(m, k, a) == Halt(r)
    decreases n, k
  {
    hide Ok, Step;
    if k > 0 {
      if n > 0 {
        PathStates(m, n - 1, Step(m, a), r, k - 1);
      } else {
        HaltStays(m, r);
        PathStates(m, 0, Step(m, a), r, k - 1);
      }
    }
  }

  lemma HaltStays(m: Machine, r: Option<Captures>)
    ensures Step(m, Halt(r)) == Halt(r)
  {
  }

  /** Every stack the configuration holds, its own and the saved ones, fits in `max` entries. */
  ghost predicate StacksWithin(c: Config, max: nat) {
    match c
    case Run(_, _, stk, ss) => |stk| <= max && forall k :: 0 <= k < |ss| ==> |ss[k].stk| <= max
    case Greedy(_, _, _, stk, ss) => |stk| <= max && forall k :: 0 <= k < |ss| ==> |ss[k].stk| <= max
    case Fail(ss) => forall k :: 0 <= k < |ss| ==> |ss[k].stk| <= max
    case Accept(_, ss) => forall k :: 0 <= k < |ss| ==> |ss[k].stk| <= max
    case Halt(_) => true
    case Stuck => false
  }

  lemma OkWithin(m: Machine, code: seq<Instr>, c: Config)
    requires CodeAt(m.bc, 0, code) && |m.bc| == Len(code) && Ok(m, c)
    ensures StacksWithin(c, MaxDepth(code, 0, 0))
  {
    hide CodeAt, Len, Decode, MaxDepth, AtDepth;
    forall pc: nat, d: nat | AtDepth(m.bc, pc, d) ensures d <= MaxDepth(code, 0, 0) {
      AtDepthBelowMax(m.bc, code, pc, d);
    }
  }

  lemma AtDepthBelowMax(bc: seq<u8>, code: seq<Instr>, pc: nat, d: nat)
    requires CodeAt(bc, 0, code) && |bc| == Len(code) && AtDepth(bc, pc, d)
    ensures d <= MaxDepth(code, 0, 0)
  {
    hide CodeAt, Len, Decode, MaxDepth;
    ScanInBounds(bc, 0, 0, pc);
    DepthBelowMax(bc, 0, 0, code, 0, pc, d);
  }

  lemma {:induction false} ScanInBounds(bc: seq<u8>, from: nat, d: nat, target: nat)
    requires Scan(bc, from, d, target).Some? && from <= |bc|
    ensures target <= |bc|
    decreases |bc| - from
  {
    hide Decode, StackDelta;
    if from < target {
      var i := Decode(bc, from).value;
      ScanInBounds(bc, from + Size(i), d + StackDelta(i), target);
    }
  }

  /** From a character boundary every run ends. */
  lemma RunEnds(m: Machine, n: Node, sticky: bool, p: nat)
    requires Compiled(m, n, sticky) && Boundary(m.env.text, p)
    ensures exists j: nat :: Iterate(m, j, Start(m.env, p)).Halt?
  {
    hide Code, CodeAt, Ok, Step, ProgramCode, Outcomes;
    CompilerCorrect(m, n, sticky, p);
    CompiledParts(m, n, sticky);
    var r := Answer(Outcomes(m.env, n, sticky, p));
    var j: nat :| Path(m, j, Start(m.env, p), Halt(r));
    PathStates(m, j, Start(m.env, p), r, j);
  }
}
