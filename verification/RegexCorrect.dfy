/** Compiler correctness: the code of a pattern, wherever it is placed, makes the machine enumerate
    the matches of the pattern in the order of the reference semantics. */
module RegexCorrect {
  import opened Bytes
  import opened RegexCode
  import opened RegexText
  import opened RegexSyntax
  import opened RegexReference
  import opened RegexMachine
  import opened RegexAnalysis
  import opened RegexDepth
  import opened RegexFragments
  import opened RegexLoops
  import opened RegexGreedy

  // ---- back references ----

  lemma FoldAllCons(f: Flags, c: codepoint, cs: seq<codepoint>)
    ensures FoldAll(f, [c] + cs) == [Fold(f, c)] + FoldAll(f, cs)
  {
  }

  lemma FoldAllSnoc(f: Flags, cs: seq<codepoint>, c: codepoint)
    ensures FoldAll(f, cs + [c]) == FoldAll(f, cs) + [Fold(f, c)]
  {
  }

  lemma ConsEqual<T>(x: T, xs: seq<T>, y: T, ys: seq<T>)
    ensures [x] + xs == [y] + ys <==> x == y && xs == ys
    ensures xs + [x] == ys + [y] <==> x == y && xs == ys
  {
    if [x] + xs == [y] + ys {
      assert ([x] + xs)[0] == x && ([y] + ys)[0] == y;
      assert ([x] + xs)[1..] == xs && ([y] + ys)[1..] == ys;
    }
    if xs + [x] == ys + [y] {
      assert |xs| == |ys|;
      assert (xs + [x])[|xs|] == x && (ys + [y])[|ys|] == y;
      assert (xs + [x])[..|xs|] == xs && (ys + [y])[..|ys|] == ys;
    }
  }

  /** The loop of a forward back reference, in terms of characters. */
  lemma {:induction false} CompareForwardIsAgain(e: Env, a: nat, b: nat, p: nat)
    requires a <= b && Boundary(e.text, a) && Boundary(e.text, b) && Boundary(e.text, p)
    ensures var cs := Chars(e.text, a, b); var q := Forward(e.text, p, |cs|);
      CompareForward(e, a, b, p)
      == if q.Some? && FoldAll(e.flags, Chars(e.text, p, q.value)) == FoldAll(e.flags, cs) then q else None
    decreases b - a
  {
    var t, n := e.text, |e.text.units|;
    hide Fold, FoldAll;
    if a < b {
      var a1 := NextPos(t, a, b);
      NextKeepsBoundary(t, a, b);
      if p < n {
        var p1 := NextPos(t, p, n);
        NextKeepsBoundary(t, p, n);
        CompareForwardIsAgain(e, a1, b, p1);
        var cs1 := Chars(t, a1, b);
        FoldAllCons(e.flags, CharAt(t, a, b), cs1);
        var q := Forward(t, p1, |cs1|);
        if q.Some? {
          ForwardBoundary(t, p1, |cs1|);
          NextKeepsBoundary(t, p, q.value);
          assert Chars(t, p, q.value) == [CharAt(t, p, n)] + Chars(t, p1, q.value);
          FoldAllCons(e.flags, CharAt(t, p, n), Chars(t, p1, q.value));
          ConsEqual(Fold(e.flags, CharAt(t, p, n)), FoldAll(e.flags, Chars(t, p1, q.value)),
            Fold(e.flags, CharAt(t, a, b)), FoldAll(e.flags, cs1));
        }
      }
    } else {
      assert FoldAll(e.flags, []) == FoldAll(e.flags, Chars(t, p, p));
    }
  }

  /** Reading from `a`, the last character before `b` is the one that ends at `b`. */
  lemma {:induction false} CharsLast(t: Text, a: nat, b: nat)
    requires a < b && Boundary(t, a) && Boundary(t, b)
    ensures a <= PrevPos(t, b, 0)
    ensures Chars(t, a, b) == Chars(t, a, PrevPos(t, b, 0)) + [CharBefore(t, b, 0)]
    decreases b - a
  {
    var n := |t.units|;
    var a1 := NextPos(t, a, b);
    NextKeepsBoundary(t, a, b);
    PrevKeepsBoundary(t, b, 0);
    NextUndoesPrev(t, b);
    var b1 := PrevPos(t, b, 0);
    PrevUndoesNext(t, a);
    if a1 == b {
      assert b1 == a;
      assert Chars(t, a, b) == [CharAt(t, a, b)] + [];
      assert Chars(t, a, a) == [];
    } else {
      CharsLast(t, a1, b);
      NextKeepsBoundary(t, a, b1);
      assert Chars(t, a, b) == [CharAt(t, a, b)] + (Chars(t, a1, b1) + [CharBefore(t, b, 0)]);
      assert Chars(t, a, b1) == [CharAt(t, a, b1)] + Chars(t, a1, b1);
    }
  }

  /** The loop of a backward back reference, in terms of characters. */
  lemma {:induction false} CompareBackwardIsAgain(e: Env, a: nat, b: nat, p: nat)
    requires a <= b && Boundary(e.text, a) && Boundary(e.text, b) && Boundary(e.text, p)
    ensures var cs := Chars(e.text, a, b); var q := Backward(e.text, p, |cs|);
      CompareBackward(e, a, b, p)
      == if q.Some? && FoldAll(e.flags, Chars(e.text, q.value, p)) == FoldAll(e.flags, cs) then q else None
    decreases b
  {
    var t := e.text;
    hide Fold, FoldAll;
    if a < b {
      CharsLast(t, a, b);
      PrevKeepsBoundary(t, b, a);
      var b1 := PrevPos(t, b, 0);
      PrevKeepsBoundary(t, b, 0);
      var cs1 := Chars(t, a, b1);
      FoldAllSnoc(e.flags, cs1, CharBefore(t, b, 0));
      if p > 0 {
        PrevKeepsBoundary(t, p, 0);
        var p1 := PrevPos(t, p, 0);
        CompareBackwardIsAgain(e, a, b1, p1);
        var q := Backward(t, p1, |cs1|);
        if q.Some? {
          BackwardBoundary(t, p1, |cs1|);
          CharsLast(t, q.value, p);
          FoldAllSnoc(e.flags, Chars(t, q.value, p1), CharBefore(t, p, 0));
          ConsEqual(Fold(e.flags, CharBefore(t, p, 0)), FoldAll(e.flags, Chars(t, q.value, p1)),
            Fold(e.flags, CharBefore(t, b, 0)), FoldAll(e.flags, cs1));
        }
      }
    } else {
      assert FoldAll(e.flags, []) == FoldAll(e.flags, Chars(t, p, p));
    }
  }

  /** A state change is seen as at most one outcome. */
  lemma DoesMoveOrFail(m: Machine, pc: nat, stk: seq<nat>, s: State, end: nat, outs: seq<State>)
    requires AtDepth(m.bc, pc, |stk|) && AtDepth(m.bc, end, |stk|)
    requires outs == [] ==> Dies(m, pc, stk, s)
    requires outs != [] ==> |outs| == 1 && Moves(m, pc, stk, s, end, stk, outs[0])
    ensures Does(m, pc, stk, s, end, stk, outs)
  {
    hide AtDepth, Dies, Moves, Does;
    if outs == [] {
      DoesFail(m, pc, stk, s, end, stk);
    } else {
      DoesMove(m, pc, stk, s, end, stk, outs[0]);
      assert outs == [outs[0]];
    }
  }

  lemma BackRefStep(m: Machine, back: bool, idx: u8, pc: nat, s: State, stk: seq<nat>)
    requires ValidState(m.env, s) && Decode(m.bc, pc) == Some(Instr.BackRef(back, idx))
    ensures var outs := MatchBackRef(m.env, back, idx, s);
      && (outs == [] ==> Dies(m, pc, stk, s))
      && (outs != [] ==> |outs| == 1 && Moves(m, pc, stk, s, pc + 2, stk, outs[0]))
  {
    hide Decode, Forward, Backward, Chars, FoldAll, CompareForward, CompareBackward;
    var e := m.env;
    if idx < e.captureCount && s.caps[2 * idx].Some? && s.caps[2 * idx + 1].Some? {
      var a, b := s.caps[2 * idx].value, s.caps[2 * idx + 1].value;
      if a < b {
        if back {
          CompareBackwardIsAgain(e, a, b, s.pos);
        } else {
          CompareForwardIsAgain(e, a, b, s.pos);
        }
      } else {
        CompareNothing(e, a, b, s.pos);
      }
    }
  }

  lemma CompareNothing(e: Env, a: nat, b: nat, p: nat)
    requires b <= a <= |e.text.units| && p <= |e.text.units|
    ensures CompareForward(e, a, b, p) == Some(p) == CompareBackward(e, a, b, p)
  {
  }

  // ---- one-character patterns ----

  lemma CharStep(m: Machine, n: Node, pc: nat, s: State, stk: seq<nat>)
    requires n.Char? || n.AnyChar? || n.Class?
    requires ValidNode(n) && ValidState(m.env, s)
    requires Decode(m.bc, pc) == Some(CharInstrOf(m.env.flags, n))
    ensures var outs := MatchChar(m.env, n, false, s); var next := pc + Size(CharInstrOf(m.env.flags, n));
      && (outs == [] ==> Dies(m, pc, stk, s))
      && (outs != [] ==> |outs| == 1 && Moves(m, pc, stk, s, next, stk, outs[0]))
  {
    hide Decode, CharInstrOf, CharTest, Accepts, Size;
    if s.pos < |m.env.text.units| {
      CharTestCorrect(m.env.flags, n, CharAt(m.env.text, s.pos, |m.env.text.units|));
    }
  }

  lemma PrevStep(m: Machine, pc: nat, s: State, stk: seq<nat>)
    requires Decode(m.bc, pc) == Some(Instr.Prev) && s.pos <= |m.env.text.units|
    ensures if s.pos == 0 then Dies(m, pc, stk, s)
      else Moves(m, pc, stk, s, pc + 1, stk, s.(pos := PrevPos(m.env.text, s.pos, 0)))
  {
    hide Decode;
  }

  lemma AssertionStep(m: Machine, i: Instr, pc: nat, s: State, stk: seq<nat>)
    requires Decode(m.bc, pc) == Some(i) && (i.LineStart? || i.LineEnd? || i.WordBoundary?)
    requires s.pos <= |m.env.text.units|
    ensures if ExecSimple(m.env, i, s.pos).Some? then Moves(m, pc, stk, s, pc + 1, stk, s) else Dies(m, pc, stk, s)
  {
    hide Decode, AtLineStart, AtLineEnd, AtWordBoundary;
  }

  lemma SaveStep(m: Machine, pc: nat, end: bool, idx: u8, s: State, stk: seq<nat>)
    requires Decode(m.bc, pc) == Some(Instr.Save(end, idx)) && s.pos <= |m.env.text.units|
    requires 2 * idx + 1 < |s.caps|
    ensures Moves(m, pc, stk, s, pc + 2, stk, SaveSlot(s, 2 * idx + if end then 1 else 0))
  {
    hide Decode;
  }

  /** `prev; char; prev` tests the character before the position. */
  lemma BackwardCharDoes(m: Machine, n: Node, pc: nat, s: State, stk: seq<nat>)
    requires n.Char? || n.AnyChar? || n.Class?
    requires ValidNode(n) && ValidState(m.env, s)
    requires var i := CharInstrOf(m.env.flags, n);
      && Decode(m.bc, pc) == Some(Instr.Prev) && Decode(m.bc, pc + 1) == Some(i)
      && Decode(m.bc, pc + 1 + Size(i)) == Some(Instr.Prev)
      && AtDepth(m.bc, pc, |stk|) && AtDepth(m.bc, pc + 1, |stk|)
      && AtDepth(m.bc, pc + 1 + Size(i), |stk|) && AtDepth(m.bc, pc + 2 + Size(i), |stk|)
    ensures Does(m, pc, stk, s, pc + 2 + Size(CharInstrOf(m.env.flags, n)), stk, MatchChar(m.env, n, true, s))
  {
    hide Decode, AtDepth, Does, Moves, Dies, CharInstrOf, Accepts, Size;
    var t := m.env.text;
    var end := pc + 2 + Size(CharInstrOf(m.env.flags, n));
    PrevStep(m, pc, s, stk);
    if s.pos == 0 {
      DoesFail(m, pc, stk, s, end, stk);
    } else {
      var p := PrevPos(t, s.pos, 0);
      PrevKeepsBoundary(t, s.pos, 0);
      NextUndoesPrev(t, s.pos);
      var s1 := s.(pos := p);
      CharStep(m, n, pc + 1, s1, stk);
      if MatchChar(m.env, n, false, s1) == [] {
        DoesFail(m, pc + 1, stk, s1, end, stk);
        DoesAfterMove(m, pc, stk, s, pc + 1, stk, s1, end, stk, []);
      } else {
        assert MatchChar(m.env, n, false, s1) == [s];
        PrevStep(m, end - 1, s, stk);
        DoesMove(m, end - 1, stk, s, end, stk, s1);
        DoesAfterMove(m, pc + 1, stk, s1, end - 1, stk, s, end, stk, [s1]);
        DoesAfterMove(m, pc, stk, s, pc + 1, stk, s1, end, stk, [s1]);
      }
    }
  }
}
