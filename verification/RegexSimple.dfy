/** Atoms that the compiler runs with the greedy fast path: code that reads a fixed number of
    characters and has no other effect. */
module RegexSimple {
  import opened Bytes
  import opened RegexCode
  import opened RegexText
  import opened RegexSyntax
  import opened RegexReference
  import opened RegexMachine
  import opened RegexAnalysis

  /** Straight-line execution of simple instructions from `p`. */
  function RunCode(e: Env, code: seq<Instr>, p: nat): (r: Option<nat>)
    requires forall k :: 0 <= k < |code| ==> IsSimpleInstr(code[k])
    ensures r.Some? ==> p <= r.value
  {
    if code == [] then Some(p)
    else
      var q := ExecSimple(e, code[0], p);
      if q.None? then None else RunCode(e, code[1..], q.value)
  }

  lemma {:induction false} SimpleLenMeaning(code: seq<Instr>)
    ensures SimpleLen(code) >= 0 <==> forall k :: 0 <= k < |code| ==> IsSimpleInstr(code[k])
    decreases |code|
  {
    if code != [] {
      SimpleLenMeaning(code[1..]);
      if SimpleLen(code) < 0 {
        if IsSimpleInstr(code[0]) {
          var k :| 0 <= k < |code[1..]| && !IsSimpleInstr(code[1..][k]);
          assert !IsSimpleInstr(code[k + 1]);
        }
      }
    }
  }

  lemma {:induction false} SimpleLenConcat(a: seq<Instr>, b: seq<Instr>)
    requires SimpleLen(a + b) >= 0
    ensures SimpleLen(a) >= 0 && SimpleLen(b) >= 0 && SimpleLen(a + b) == SimpleLen(a) + SimpleLen(b)
    decreases |a|
  {
    if a == [] {
      assert a + b == b;
    } else {
      assert (a + b)[1..] == a[1..] + b;
      SimpleLenConcat(a[1..], b);
    }
  }

  lemma {:induction false} RunCodeConcat(e: Env, a: seq<Instr>, b: seq<Instr>, p: nat)
    requires forall k :: 0 <= k < |a| ==> IsSimpleInstr(a[k])
    requires forall k :: 0 <= k < |b| ==> IsSimpleInstr(b[k])
    ensures forall k :: 0 <= k < |a + b| ==> IsSimpleInstr((a + b)[k])
    ensures RunCode(e, a + b, p)
         == if RunCode(e, a, p).Some? then RunCode(e, b, RunCode(e, a, p).value) else None
    decreases |a|
  {
    hide IsSimpleInstr, ExecSimple;
    if a == [] {
      assert a + b == b;
    } else {
      assert (a + b)[1..] == a[1..] + b;
      var q := ExecSimple(e, a[0], p);
      if q.Some? {
        RunCodeConcat(e, a[1..], b, q.value);
      }
    }
  }

  /** The recursive call of the machine runs the straight-line code. */
  lemma {:induction false} RunSimpleRunsCode(m: Machine, pc: nat, code: seq<Instr>, p: nat)
    requires forall k :: 0 <= k < |code| ==> IsSimpleInstr(code[k])
    requires CodeAt(m.bc, pc, code + [Instr.Match])
    ensures RunSimple(m, pc, p) == RunCode(m.env, code, p)
    decreases |code|
  {
    hide Decode, ExecSimple, IsSimpleInstr, Size;
    if code == [] {
      assert (code + [Instr.Match])[0] == Instr.Match;
    } else {
      assert (code + [Instr.Match])[0] == code[0];
      assert (code + [Instr.Match])[1..] == code[1..] + [Instr.Match];
      assert !code[0].Match? by { MatchNotSimple(code[0]); }
      if ExecSimple(m.env, code[0], p).Some? {
        RunSimpleRunsCode(m, pc + Size(code[0]), code[1..], ExecSimple(m.env, code[0], p).value);
      }
    }
  }

  lemma MatchNotSimple(i: Instr)
    requires IsSimpleInstr(i)
    ensures !i.Match?
  {
  }

  /** What it means for code to behave as a pattern that has at most one match, `count` characters on. */
  ghost predicate Agrees(e: Env, n: Node, back: bool, cc: nat, code: seq<Instr>, s: State)
    requires ValidNode(n) && cc + Groups(n) <= e.captureCount && ValidState(e, s)
    requires SimpleLen(code) >= 0
  {
    SimpleLenMeaning(code);
    var p := RunCode(e, code, s.pos);
    && Matches(e, n, back, cc, s) == (if p.Some? then [s.(pos := p.value)] else [])
    && (p.Some? ==> Forward(e.text, s.pos, SimpleLen(code)) == p)
  }

  lemma MatchesAllOne(e: Env, n: Node, back: bool, cc: nat, from: nat, s: State)
    requires ValidNode(n) && cc + Groups(n) <= e.captureCount && AllFrom(e, back, from, [s])
    ensures ValidState(e, [s][0]) && MatchesAll(e, n, back, cc, from, [s]) == Matches(e, n, back, cc, s)
  {
    hide Matches;
    assert ValidState(e, [s][0]);
    assert MatchesAll(e, n, back, cc, from, []) == [];
    assert [s][1..] == [];
    assert Matches(e, n, back, cc, s) + [] == Matches(e, n, back, cc, s);
  }

  lemma CatAgrees(e: Env, a: Node, ccA: nat, ca: seq<Instr>, b: Node, ccB: nat, cb: seq<Instr>, back: bool, s: State)
    requires ValidNode(a) && ccA + Groups(a) <= e.captureCount && ValidState(e, s)
    requires ValidNode(b) && ccB + Groups(b) <= e.captureCount
    requires SimpleLen(ca + cb) >= 0 && SimpleLen(ca) >= 0 && SimpleLen(cb) >= 0
    requires Agrees(e, a, back, ccA, ca, s)
    requires forall r | ValidState(e, r) :: Agrees(e, b, back, ccB, cb, r)
    ensures RunCode.requires(e, ca + cb, s.pos)
    ensures var p := RunCode(e, ca + cb, s.pos);
      && MatchesAll(e, b, back, ccB, s.pos, Matches(e, a, back, ccA, s)) == (if p.Some? then [s.(pos := p.value)] else [])
      && (p.Some? ==> Forward(e.text, s.pos, SimpleLen(ca + cb)) == p)
  {
    hide Matches, IsSimpleInstr, RunCode, Forward, SimpleLen, MatchesAll;
    SimpleLenMeaning(ca);
    SimpleLenMeaning(cb);
    SimpleLenConcat(ca, cb);
    RunCodeConcat(e, ca, cb, s.pos);
    var rs := Matches(e, a, back, ccA, s);
    if rs != [] {
      var r := rs[0];
      assert rs == [r];
      assert Agrees(e, b, back, ccB, cb, r);
      MatchesAllOne(e, b, back, ccB, s.pos, r);
      ForwardSplit(e.text, s.pos, SimpleLen(ca), SimpleLen(cb));
    } else {
      assert MatchesAll(e, b, back, ccB, s.pos, []) == [] by { MatchesAllNone(e, b, back, ccB, s.pos); }
    }
  }

  lemma MatchesAllNone(e: Env, n: Node, back: bool, cc: nat, from: nat)
    requires ValidNode(n) && cc + Groups(n) <= e.captureCount
    ensures MatchesAll(e, n, back, cc, from, []) == []
  {
  }

  lemma SimpleQuant(atom: seq<Instr>, min: nat, max: nat, greedy: bool, first: nat, groups: nat)
    requires min <= max <= INFINITE && first + groups <= 0x100
    ensures SimpleLen(QuantCode(atom, min, max, greedy, first, groups)) >= 0
            ==> (max == 0 && groups == 0) || (min == 1 && max == 1)
    ensures max == 0 && groups == 0 ==> QuantCode(atom, min, max, greedy, first, groups) == []
    ensures SimpleLen(QuantCode(atom, min, max, greedy, first, groups)) >= 0 && max == 1
            ==> QuantCode(atom, min, max, greedy, first, groups) == atom
  {
    hide NeedCheckAdvance;
    var code := QuantCode(atom, min, max, greedy, first, groups);
    SimpleLenMeaning(code);
    PredictableQuant(atom, min, max, greedy, first, groups);
    if max == 0 && groups > 0 {
      assert code[0].SaveReset?;
    }
    if SimpleLen(code) >= 0 {
      assert AllPredictable(code);
    }
  }

  lemma RunsNothing(e: Env, p: nat)
    requires p <= |e.text.units|
    ensures SimpleLen([]) == 0 && RunCode.requires(e, [], p) && RunCode(e, [], p) == Some(p)
    ensures Forward(e.text, p, 0) == Some(p)
  {
  }

  lemma NeverAgrees(e: Env, n: Node, back: bool, cc: nat, s: State)
    requires ValidNode(n) && cc + Groups(n) <= e.captureCount && ValidState(e, s)
    requires n.Quant? && n.max == 0 && Groups(n) == 0
    ensures Agrees(e, n, back, cc, [], s)
  {
    hide Matches, Repeat, OptionalAll, ValidNode, Groups;
    QuantUnfold(n);
    QuantMatches(e, n, back, cc, s);
    RepeatNone(e, n.atom, back, cc, s.pos, [s]);
    RunsNothing(e, s.pos);
    OptionalNone(e, n.atom, back, cc, n.greedy, s.pos, Room(e, back, s.pos) + 1, [s]);
  }

  /** Simple code has exactly the behaviour of its pattern: no captures, at most one match. */
  lemma {:induction false} SimpleSound(e: Env, n: Node, back: bool, cc: nat, s: State)
    requires ValidNode(n) && cc + Groups(n) <= e.captureCount <= 0x100 && ValidState(e, s)
    requires SimpleLen(Code(e.flags, n, back, cc)) >= 0
    ensures Agrees(e, n, back, cc, Code(e.flags, n, back, cc), s)
    decreases Nodes(n), 1
  {
    match n
    case Cat(a, b) => SimpleCat(e, n, back, cc, s);
    case Quant(a, min, max, greedy) =>
      hide QuantCode, Agrees;
      var ca := Code(e.flags, a, back, cc);
      SimpleQuant(ca, min, max, greedy, cc, Groups(a));
      if max == 0 {
        NeverAgrees(e, n, back, cc, s);
      } else {
        SimpleSound(e, a, back, cc, s);
        OnceAgrees(e, n, back, cc, ca, s);
      }
    case _ =>
      SimpleLeaf(e, n, back, cc, s);
  }

  lemma OnceAgrees(e: Env, n: Node, back: bool, cc: nat, code: seq<Instr>, s: State)
    requires IsOnce(n) && ValidNode(n) && cc + Groups(n) <= e.captureCount && ValidState(e, s)
    requires SimpleLen(code) >= 0 && Agrees(e, n.atom, back, cc, code, s)
    ensures Agrees(e, n, back, cc, code, s)
  {
    OnceMatches(e, n, back, cc, s);
    hide Matches;
  }

  lemma SimpleCat(e: Env, n: Node, back: bool, cc: nat, s: State)
    requires ValidNode(n) && cc + Groups(n) <= e.captureCount <= 0x100 && ValidState(e, s)
    requires n.Cat? && SimpleLen(Code(e.flags, n, back, cc)) >= 0
    ensures Agrees(e, n, back, cc, Code(e.flags, n, back, cc), s)
    decreases Nodes(n), 0
  {
    hide Matches, MatchesAll, Code, ValidNode, Groups, Nodes, SimpleLen, RunCode, Forward, ValidState;
    CatUnfold(e.flags, n, back, cc);
    CatMatches(e, n, back, cc, s);
    var a, b := n.first, n.second;
    var ccB := cc + Groups(a);
    var ca, cb := Code(e.flags, a, back, cc), Code(e.flags, b, back, ccB);
    if back {
      SimpleLenConcat(cb, ca);
      SimpleSound(e, b, back, ccB, s);
      forall r | ValidState(e, r) ensures Agrees(e, a, back, cc, ca, r) {
        hide *;
        SimpleSound(e, a, back, cc, r);
      }
      CatAgrees(e, b, ccB, cb, a, cc, ca, back, s);
    } else {
      SimpleLenConcat(ca, cb);
      SimpleSound(e, a, back, cc, s);
      forall r | ValidState(e, r) ensures Agrees(e, b, back, ccB, cb, r) {
        hide *;
        SimpleSound(e, b, back, ccB, r);
      }
      CatAgrees(e, a, cc, ca, b, ccB, cb, back, s);
    }
  }

  lemma NotSimpleLeaf(f: Flags, n: Node, back: bool, cc: nat)
    requires ValidNode(n) && cc + Groups(n) <= 0x100
    requires n.Alt? || n.Capture? || n.Look? || n.BackRef? || (back && (n.Char? || n.AnyChar? || n.Class?))
    ensures SimpleLen(Code(f, n, back, cc)) < 0
  {
    hide ClassInstr, LiteralInstr, Len;
    var code := Code(f, n, back, cc);
    assert !IsSimpleInstr(code[0]);
  }

  lemma SimpleLeaf(e: Env, n: Node, back: bool, cc: nat, s: State)
    requires ValidNode(n) && cc + Groups(n) <= e.captureCount <= 0x100 && ValidState(e, s)
    requires !n.Cat? && !n.Quant?
    requires SimpleLen(Code(e.flags, n, back, cc)) >= 0
    ensures Agrees(e, n, back, cc, Code(e.flags, n, back, cc), s)
  {
    if n.Alt? || n.Capture? || n.Look? || n.BackRef? || (back && (n.Char? || n.AnyChar? || n.Class?)) {
      NotSimpleLeaf(e.flags, n, back, cc);
    } else if n.LineStart? || n.LineEnd? || n.WordBoundary? {
      SimpleOne(e, Code(e.flags, n, back, cc)[0], s.pos);
    } else if n.Char? || n.AnyChar? || n.Class? {
      SimpleChar(e, n, cc, s);
    }
  }

  lemma SimpleOne(e: Env, i: Instr, p: nat)
    requires IsSimpleInstr(i)
    ensures RunCode(e, [i], p) == ExecSimple(e, i, p)
    ensures SimpleLen([i]) == if IsCharInstr(i) then 1 else 0
  {
    hide ExecSimple, IsSimpleInstr, IsCharInstr;
    assert [i][1..] == [];
  }

  lemma CharInstrCode(f: Flags, n: Node, back: bool, cc: nat)
    requires n.Char? || n.AnyChar? || n.Class?
    requires ValidNode(n) && cc <= 0x100
    ensures Code(f, n, back, cc) == CharCode(back, CharInstrOf(f, n))
  {
  }

  lemma SimpleChar(e: Env, n: Node, cc: nat, s: State)
    requires n.Char? || n.AnyChar? || n.Class?
    requires ValidNode(n) && cc <= e.captureCount <= 0x100 && ValidState(e, s)
    requires SimpleLen(Code(e.flags, n, false, cc)) >= 0
    ensures Agrees(e, n, false, cc, Code(e.flags, n, false, cc), s)
  {
    hide ClassInstr, LiteralInstr, CharInstrOf, CharTest, Accepts;
    var i := CharInstrOf(e.flags, n);
    CharInstrCode(e.flags, n, false, cc);
    SimpleOne(e, i, s.pos);
    if s.pos < |e.text.units| {
      CharTestCorrect(e.flags, n, CharAt(e.text, s.pos, |e.text.units|));
      assert Forward(e.text, s.pos, 1) == Some(NextPos(e.text, s.pos, |e.text.units|));
    }
  }
}
