/** The loops emitted for quantifiers run the reference semantics of the quantifier, whenever the
    code of the atom runs the reference semantics of the atom. */
module RegexLoops {
  import opened Bytes
  import opened RegexCode
  import opened RegexText
  import opened RegexSyntax
  import opened RegexReference
  import opened RegexMachine
  import opened RegexAnalysis
  import opened RegexDepth
  import opened RegexFragments

  // ---- single instructions ----

  lemma JumpBack(from: nat, len: nat)
    requires len < 0x8000_0000
    ensures from + len + ToI32(Behind(len)) == from
  {
    var x: int := len;
    SignedRoundTrip(-x);
  }

  lemma JumpAhead(len: nat)
    requires len < 0x8000_0000
    ensures ToI32(ToU32(len)) == len
  {
    SignedRoundTrip(len);
  }

  lemma MovesGoto(m: Machine, pc: nat, stk: seq<nat>, s: State, off: u32)
    requires Decode(m.bc, pc) == Some(Instr.Goto(off)) && pc + 5 + ToI32(off) >= 0 && s.pos <= |m.env.text.units|
    ensures Moves(m, pc, stk, s, pc + 5 + ToI32(off), stk, s)
  {
    hide Decode;
  }

  lemma MovesPush(m: Machine, pc: nat, stk: seq<nat>, s: State, v: u32)
    requires Decode(m.bc, pc) == Some(Instr.PushI32(v)) && s.pos <= |m.env.text.units|
    ensures Moves(m, pc, stk, s, pc + 5, stk + [v], s)
  {
    hide Decode;
  }

  lemma MovesPushCharPos(m: Machine, pc: nat, stk: seq<nat>, s: State)
    requires Decode(m.bc, pc) == Some(Instr.PushCharPos) && s.pos <= |m.env.text.units|
    ensures Moves(m, pc, stk, s, pc + 1, stk + [s.pos], s)
  {
    hide Decode;
  }

  lemma MovesDrop(m: Machine, pc: nat, stk: seq<nat>, v: nat, s: State)
    requires Decode(m.bc, pc) == Some(Instr.Drop) && s.pos <= |m.env.text.units|
    ensures Moves(m, pc, stk + [v], s, pc + 1, stk, s)
  {
    hide Decode;
    assert Front(stk + [v]) == stk;
  }

  lemma CheckAdvanceDoes(m: Machine, pc: nat, stk: seq<nat>, p: nat, s: State)
    requires Decode(m.bc, pc) == Some(Instr.CheckAdvance) && s.pos <= |m.env.text.units|
    ensures if s.pos == p then Dies(m, pc, stk + [p], s) else Moves(m, pc, stk + [p], s, pc + 1, stk, s)
  {
    hide Decode;
    assert Front(stk + [p]) == stk;
  }

  lemma MovesLoop(m: Machine, pc: nat, stk: seq<nat>, v: nat, s: State, off: u32)
    requires Decode(m.bc, pc) == Some(Instr.Loop(off)) && v > 0 && pc + 5 + ToI32(off) >= 0
    requires s.pos <= |m.env.text.units|
    ensures Moves(m, pc, stk + [v], s, if v == 1 then pc + 5 else pc + 5 + ToI32(off), stk + [v - 1], s)
  {
    hide Decode;
    assert Front(stk + [v]) == stk;
  }

  lemma MovesReset(m: Machine, pc: nat, stk: seq<nat>, s: State, first: u8, last: u8)
    requires Decode(m.bc, pc) == Some(Instr.SaveReset(first, last)) && s.pos <= |m.env.text.units|
    requires 2 * last + 1 < |s.caps|
    ensures Moves(m, pc, stk, s, pc + 3, stk, Reset(s, first, last + 1))
  {
    hide Decode;
  }

  // ---- the atom and the loop body ----

  /** The code of `n` at `pc` enumerates the matches of `n`, from every state and at every depth. */
  ghost predicate Runs(m: Machine, n: Node, back: bool, cc: nat, pc: nat)
    requires ValidNode(n) && cc + Groups(n) <= m.env.captureCount <= 0x100
  {
    forall s, stk | ValidState(m.env, s) && AtDepth(m.bc, pc, |stk|) ::
      Does(m, pc, stk, s, pc + Len(Code(m.env.flags, n, back, cc)), stk, Matches(m.env, n, back, cc, s))
  }

  /** The loop body at `pb` enumerates the matches of the atom that advance. */
  ghost predicate BodyRuns(m: Machine, a: Node, back: bool, cc: nat, pb: nat)
    requires ValidNode(a) && cc + Groups(a) <= m.env.captureCount <= 0x100
  {
    forall s, stk | ValidState(m.env, s) && AtDepth(m.bc, pb, |stk|) ::
      Does(m, pb, stk, s, pb + Len(LoopBody(Code(m.env.flags, a, back, cc))), stk,
        Advancing(Matches(m.env, a, back, cc, s), s.pos))
  }

  /** Where the atom sits in its loop body. */
  function AtomStart(atom: seq<Instr>, pb: nat): (r: nat) {
    if NeedCheckAdvance(atom) then pb + 1 else pb
  }

  lemma RunsAt(m: Machine, n: Node, back: bool, cc: nat, pc: nat, s: State, stk: seq<nat>)
    requires ValidNode(n) && cc + Groups(n) <= m.env.captureCount <= 0x100
    requires Runs(m, n, back, cc, pc) && ValidState(m.env, s) && AtDepth(m.bc, pc, |stk|)
    ensures Does(m, pc, stk, s, pc + Len(Code(m.env.flags, n, back, cc)), stk, Matches(m.env, n, back, cc, s))
  {
    hide Does, ValidState, AtDepth, Len, Code, Matches;
  }

  lemma BodyRunsAt(m: Machine, a: Node, back: bool, cc: nat, pb: nat, s: State, stk: seq<nat>)
    requires ValidNode(a) && cc + Groups(a) <= m.env.captureCount <= 0x100
    requires BodyRuns(m, a, back, cc, pb) && ValidState(m.env, s) && AtDepth(m.bc, pb, |stk|)
    ensures Does(m, pb, stk, s, pb + Len(LoopBody(Code(m.env.flags, a, back, cc))), stk,
        Advancing(Matches(m.env, a, back, cc, s), s.pos))
  {
    hide Does, ValidState, AtDepth, Len, Code, Matches, LoopBody, Advancing;
  }

  /** Without the check, every match advances anyway. */
  lemma UncheckedAdvances(e: Env, a: Node, back: bool, cc: nat, s: State)
    requires ValidNode(a) && cc + Groups(a) <= e.captureCount <= 0x100 && ValidState(e, s)
    requires !NeedCheckAdvance(Code(e.flags, a, back, cc))
    ensures Advancing(Matches(e, a, back, cc, s), s.pos) == Matches(e, a, back, cc, s)
  {
    hide Matches, Code, ValidState, ValidNode, NeedCheckAdvance;
    NeedCheckMeaning(Code(e.flags, a, back, cc));
    AdvanceSound(e, a, back, cc, s);
    AdvancingAll(Matches(e, a, back, cc, s), s.pos);
  }

  lemma BodyUnchecked(m: Machine, a: Node, back: bool, cc: nat, pb: nat)
    requires ValidNode(a) && cc + Groups(a) <= m.env.captureCount <= 0x100
    requires !NeedCheckAdvance(Code(m.env.flags, a, back, cc)) && Runs(m, a, back, cc, pb)
    ensures BodyRuns(m, a, back, cc, pb)
  {
    hide Matches, Code, ValidState, AtDepth, Does, Len, NeedCheckAdvance, ValidNode, Runs, Advancing;
    forall s, stk | ValidState(m.env, s) && AtDepth(m.bc, pb, |stk|)
      ensures Does(m, pb, stk, s, pb + Len(LoopBody(Code(m.env.flags, a, back, cc))), stk,
        Advancing(Matches(m.env, a, back, cc, s), s.pos))
    {
      UncheckedAdvances(m.env, a, back, cc, s);
      RunsAt(m, a, back, cc, pb, s, stk);
    }
  }

  lemma CheckedBodyDoes(m: Machine, a: Node, back: bool, cc: nat, pb: nat, s: State, stk: seq<nat>)
    requires ValidNode(a) && cc + Groups(a) <= m.env.captureCount <= 0x100
    requires ValidState(m.env, s) && AtDepth(m.bc, pb, |stk|)
    requires Runs(m, a, back, cc, pb + 1)
    requires Decode(m.bc, pb) == Some(Instr.PushCharPos)
    requires var len := Len(Code(m.env.flags, a, back, cc));
      && Decode(m.bc, pb + 1 + len) == Some(Instr.CheckAdvance)
      && AtDepth(m.bc, pb + 1, |stk| + 1) && AtDepth(m.bc, pb + 1 + len, |stk| + 1)
      && AtDepth(m.bc, pb + 2 + len, |stk|)
    ensures Does(m, pb, stk, s, pb + 2 + Len(Code(m.env.flags, a, back, cc)), stk,
      Advancing(Matches(m.env, a, back, cc, s), s.pos))
  {
    hide Matches, Code, AtDepth, Does, Len, Decode, Moves, Dies, Runs, ValidNode, Groups;
    var rs := Matches(m.env, a, back, cc, s);
    RunsAt(m, a, back, cc, pb + 1, s, stk + [s.pos]);
    var mid := pb + 1 + Len(Code(m.env.flags, a, back, cc));
    var stk1 := stk + [s.pos];
    var next := AdvancingLists(rs, s.pos);
    forall i | 0 <= i < |rs| ensures Does(m, mid, stk1, rs[i], mid + 1, stk, next[i]) {
      assert ValidState(m.env, rs[i]);
      CheckAdvanceDoes(m, mid, stk, s.pos, rs[i]);
      if rs[i].pos == s.pos {
        DoesFail(m, mid, stk1, rs[i], mid + 1, stk);
      } else {
        DoesMove(m, mid, stk1, rs[i], mid + 1, stk, rs[i]);
      }
    }
    DoesThen(m, pb + 1, stk1, s, mid, stk1, rs, mid + 1, stk, next);
    MovesPushCharPos(m, pb, stk, s);
    DoesAfterMove(m, pb, stk, s, pb + 1, stk1, s, mid + 1, stk, Flatten(next));
    AdvancingFlatten(rs, s.pos);
  }

  lemma BodyDoes(m: Machine, a: Node, back: bool, cc: nat, pb: nat)
    requires ValidNode(a) && cc + Groups(a) <= m.env.captureCount <= 0x100
    requires CodeAt(m.bc, pb, LoopBody(Code(m.env.flags, a, back, cc)))
    requires Runs(m, a, back, cc, AtomStart(Code(m.env.flags, a, back, cc), pb))
    ensures BodyRuns(m, a, back, cc, pb)
  {
    hide Matches, Code, AtDepth, Does, Decode, NeedCheckAdvance, Runs, ValidNode, ValidState, CodeAt, Advancing, Balanced, Len;
    var atom := Code(m.env.flags, a, back, cc);
    if NeedCheckAdvance(atom) {
      CodeBalanced(m.env.flags, a, back, cc);
      BracketAt(m.bc, pb, Instr.PushCharPos, atom, Instr.CheckAdvance);
      LenBracket(Instr.PushCharPos, atom, Instr.CheckAdvance);
      forall s, stk | ValidState(m.env, s) && AtDepth(m.bc, pb, |stk|)
        ensures Does(m, pb, stk, s, pb + Len(LoopBody(atom)), stk, Advancing(Matches(m.env, a, back, cc, s), s.pos))
      {
        DepthNext(m.bc, pb, |stk|, Instr.PushCharPos);
        BalancedPast(m.bc, pb + 1, atom, |stk| + 1);
        DepthNext(m.bc, pb + 1 + Len(atom), |stk| + 1, Instr.CheckAdvance);
        CheckedBodyDoes(m, a, back, cc, pb, s, stk);
      }
    } else {
      BodyUnchecked(m, a, back, cc, pb);
    }
  }

  lemma BalancedPast(bc: seq<u8>, pc: nat, code: seq<Instr>, d: nat)
    requires AtDepth(bc, pc, d) && CodeAt(bc, pc, code) && Balanced(code)
    ensures AtDepth(bc, pc + Len(code), d)
  {
    hide AtDepth, CodeAt, DepthAfter, Len;
    assert DepthAfter(code, d) == Some(d);
    DepthPast(bc, pc, code, d);
  }

  lemma BracketAt(bc: seq<u8>, pc: nat, first: Instr, code: seq<Instr>, last: Instr)
    requires CodeAt(bc, pc, [first] + code + [last])
    ensures Decode(bc, pc) == Some(first)
    ensures CodeAt(bc, pc + Size(first), code)
    ensures Decode(bc, pc + Size(first) + Len(code)) == Some(last)
  {
    hide Decode, Size;
    CodeAtConcat(bc, pc, [first] + code, [last]);
    CodeAtConcat(bc, pc, [first], code);
    LenBracket(first, code, last);
  }

  lemma LenBracket(first: Instr, code: seq<Instr>, last: Instr)
    ensures Len([first]) == Size(first) && Len([last]) == Size(last)
    ensures Len([first] + code) == Size(first) + Len(code)
    ensures Len([first] + code + [last]) == Size(first) + Len(code) + Size(last)
  {
    hide Size;
    LenConcat([first] + code, [last]);
    LenConcat([first], code);
    assert [first][1..] == [] && [last][1..] == [];
  }

  // ---- unbounded loop ----

  /** The addresses and depths of `split; body; goto split`. */
  ghost predicate StarAt(m: Machine, len: nat, greedy: bool, h: nat, d: nat) {
    && len + 10 < 0x8000_0000
    && Decode(m.bc, h) == Some(Instr.Split(greedy, ToU32(len + 5)))
    && Decode(m.bc, h + 5 + len) == Some(Instr.Goto(Behind(len + 10)))
    && AtDepth(m.bc, h, d) && AtDepth(m.bc, h + 5, d) && AtDepth(m.bc, h + 5 + len, d) && AtDepth(m.bc, h + 10 + len, d)
  }

  lemma {:induction false} StarDoes(m: Machine, a: Node, back: bool, cc: nat, greedy: bool, h: nat, s: State, stk: seq<nat>)
    requires ValidNode(a) && cc + Groups(a) <= m.env.captureCount <= 0x100 && ValidState(m.env, s)
    requires BodyRuns(m, a, back, cc, h + 5)
    requires StarAt(m, Len(LoopBody(Code(m.env.flags, a, back, cc))), greedy, h, |stk|)
    ensures Does(m, h, stk, s, h + 10 + Len(LoopBody(Code(m.env.flags, a, back, cc))), stk,
      Optional(m.env, a, back, cc, None, greedy, s))
    decreases Room(m.env, back, s.pos)
  {
    hide Matches, Code, AtDepth, Does, Len, Decode, ValidState, ValidNode, Moves, BodyRuns, LoopBody, Advancing, OptionalAll, Behind, ToU32;
    var e := m.env;
    var len := Len(LoopBody(Code(e.flags, a, back, cc)));
    var adv := Advancing(Matches(e, a, back, cc, s), s.pos);
    var pg := h + 5 + len;
    StatePos(e, s);
    AdvancingFrom(e, back, s.pos, Matches(e, a, back, cc, s));
    var next := OptionalLists(e, a, back, cc, None, greedy, s.pos, adv);
    JumpBack(h, len + 10);
    forall i | 0 <= i < |adv| ensures Does(m, pg, stk, adv[i], pg + 5, stk, next[i]) {
      StatePos(e, adv[i]);
      StarDoes(m, a, back, cc, greedy, h, adv[i], stk);
      MovesGoto(m, pg, stk, adv[i], Behind(len + 10));
      DoesAfterMove(m, pg, stk, adv[i], h, stk, adv[i], pg + 5, stk, next[i]);
    }
    BodyRunsAt(m, a, back, cc, h + 5, s, stk);
    DoesThen(m, h + 5, stk, s, pg, stk, adv, pg + 5, stk, next);
    OptionalAllFlatten(e, a, back, cc, None, greedy, s.pos, Room(e, back, s.pos), adv);
    DoesHere(m, pg + 5, stk, s);
    JumpAhead(len + 5);
    DoesSplit(m, h, stk, s, greedy, ToU32(len + 5), pg + 5, pg + 5, stk, Flatten(next), [s]);
  }

  lemma StatePos(e: Env, s: State)
    requires ValidState(e, s)
    ensures s.pos <= |e.text.units|
  {
  }

  // ---- counted loop ----

  /** The addresses and depths of `split; body; loop split; drop`. */
  ghost predicate UpToAt(m: Machine, len: nat, greedy: bool, h: nat, d: nat) {
    && len + 10 < 0x8000_0000
    && Decode(m.bc, h) == Some(Instr.Split(greedy, ToU32(len + 5)))
    && Decode(m.bc, h + 5 + len) == Some(Instr.Loop(Behind(len + 10)))
    && Decode(m.bc, h + 10 + len) == Some(Instr.Drop)
    && AtDepth(m.bc, h, d + 1) && AtDepth(m.bc, h + 5, d + 1) && AtDepth(m.bc, h + 5 + len, d + 1)
    && AtDepth(m.bc, h + 10 + len, d + 1) && AtDepth(m.bc, h + 11 + len, d)
  }

  lemma {:induction false} UpToDoes(m: Machine, a: Node, back: bool, cc: nat, greedy: bool, h: nat, k: nat, s: State,
                                    stk: seq<nat>)
    requires ValidNode(a) && cc + Groups(a) <= m.env.captureCount <= 0x100 && ValidState(m.env, s) && k > 0
    requires BodyRuns(m, a, back, cc, h + 5)
    requires UpToAt(m, Len(LoopBody(Code(m.env.flags, a, back, cc))), greedy, h, |stk|)
    ensures Does(m, h, stk + [k], s, h + 11 + Len(LoopBody(Code(m.env.flags, a, back, cc))), stk,
      Optional(m.env, a, back, cc, Some(k), greedy, s))
    decreases Room(m.env, back, s.pos)
  {
    hide Matches, Code, AtDepth, Does, Len, Decode, ValidState, ValidNode, Moves, BodyRuns, LoopBody, Advancing, OptionalAll, Behind, ToU32;
    var e := m.env;
    var len := Len(LoopBody(Code(e.flags, a, back, cc)));
    var adv := Advancing(Matches(e, a, back, cc, s), s.pos);
    var pl, pd, end := h + 5 + len, h + 10 + len, h + 11 + len;
    var stk1 := stk + [k];
    assert |stk1| == |stk| + 1;
    StatePos(e, s);
    AdvancingFrom(e, back, s.pos, Matches(e, a, back, cc, s));
    var next := OptionalLists(e, a, back, cc, Some(k - 1), greedy, s.pos, adv);
    JumpBack(h, len + 10);
    forall i | 0 <= i < |adv| ensures Does(m, pl, stk1, adv[i], end, stk, next[i]) {
      StatePos(e, adv[i]);
      MovesLoop(m, pl, stk, k, adv[i], Behind(len + 10));
      var stk2 := stk + [k - 1];
      assert |stk2| == |stk| + 1;
      if k == 1 {
        MovesDrop(m, pd, stk, 0, adv[i]);
        DoesMove(m, pd, stk2, adv[i], end, stk, adv[i]);
        DoesAfterMove(m, pl, stk1, adv[i], pd, stk2, adv[i], end, stk, next[i]);
      } else {
        UpToDoes(m, a, back, cc, greedy, h, k - 1, adv[i], stk);
        DoesAfterMove(m, pl, stk1, adv[i], h, stk2, adv[i], end, stk, next[i]);
      }
    }
    BodyRunsAt(m, a, back, cc, h + 5, s, stk1);
    DoesThen(m, h + 5, stk1, s, pl, stk1, adv, end, stk, next);
    OptionalAllFlatten(e, a, back, cc, Some(k - 1), greedy, s.pos, Room(e, back, s.pos), adv);
    MovesDrop(m, pd, stk, k, s);
    DoesMove(m, pd, stk1, s, end, stk, s);
    JumpAhead(len + 5);
    DoesSplit(m, h, stk1, s, greedy, ToU32(len + 5), pd, end, stk, Flatten(next), [s]);
  }

  // ---- one optional iteration ----

  lemma OptionDoes(m: Machine, a: Node, back: bool, cc: nat, greedy: bool, h: nat, s: State, stk: seq<nat>)
    requires ValidNode(a) && cc + Groups(a) <= m.env.captureCount <= 0x100 && ValidState(m.env, s)
    requires BodyRuns(m, a, back, cc, h + 5)
    requires var len := Len(LoopBody(Code(m.env.flags, a, back, cc)));
      && len + 5 < 0x8000_0000
      && Decode(m.bc, h) == Some(Instr.Split(greedy, ToU32(len)))
      && AtDepth(m.bc, h, |stk|) && AtDepth(m.bc, h + 5, |stk|) && AtDepth(m.bc, h + 5 + len, |stk|)
    ensures Does(m, h, stk, s, h + 5 + Len(LoopBody(Code(m.env.flags, a, back, cc))), stk,
      Optional(m.env, a, back, cc, Some(1), greedy, s))
  {
    hide Matches, Code, AtDepth, Does, Len, Decode, ValidState, ValidNode, BodyRuns, LoopBody, Advancing;
    var e := m.env;
    var len := Len(LoopBody(Code(e.flags, a, back, cc)));
    var adv := Advancing(Matches(e, a, back, cc, s), s.pos);
    StatePos(e, s);
    AdvancingFrom(e, back, s.pos, Matches(e, a, back, cc, s));
    OptionalNone(e, a, back, cc, greedy, s.pos, Room(e, back, s.pos), adv);
    BodyRunsAt(m, a, back, cc, h + 5, s, stk);
    DoesHere(m, h + 5 + len, stk, s);
    JumpAhead(len);
    DoesSplit(m, h, stk, s, greedy, ToU32(len), h + 5 + len, h + 5 + len, stk, adv, [s]);
  }

  // ---- mandatory iterations ----

  lemma {:induction false} MatchesAllConcat(e: Env, n: Node, back: bool, cc: nat, from: nat, xs: seq<State>, ys: seq<State>)
    requires ValidNode(n) && cc + Groups(n) <= e.captureCount && AllFrom(e, back, from, xs) && AllFrom(e, back, from, ys)
    ensures AllFrom(e, back, from, xs + ys)
    ensures MatchesAll(e, n, back, cc, from, xs + ys)
         == MatchesAll(e, n, back, cc, from, xs) + MatchesAll(e, n, back, cc, from, ys)
    decreases |xs|
  {
    hide Matches, ValidState, ValidNode, Groups;
    if xs == [] {
      assert xs + ys == ys;
    } else {
      assert (xs + ys)[1..] == xs[1..] + ys && (xs + ys)[0] == xs[0];
      MatchesAllConcat(e, n, back, cc, from, xs[1..], ys);
    }
  }

  lemma {:induction false} RepeatConcat(e: Env, a: Node, back: bool, cc: nat, n: nat, from: nat, xs: seq<State>, ys: seq<State>)
    requires ValidNode(a) && cc + Groups(a) <= e.captureCount && AllFrom(e, back, from, xs) && AllFrom(e, back, from, ys)
    ensures AllFrom(e, back, from, xs + ys)
    ensures Repeat(e, a, back, cc, n, from, xs + ys)
         == Repeat(e, a, back, cc, n, from, xs) + Repeat(e, a, back, cc, n, from, ys)
    decreases n
  {
    hide ValidState, ValidNode, MatchesAll;
    MatchesAllConcat(e, a, back, cc, from, xs, ys);
    if n > 0 {
      RepeatConcat(e, a, back, cc, n - 1, from, MatchesAll(e, a, back, cc, from, xs), MatchesAll(e, a, back, cc, from, ys));
    }
  }

  function RepeatLists(e: Env, a: Node, back: bool, cc: nat, n: nat, from: nat, rs: seq<State>): (r: seq<seq<State>>)
    requires ValidNode(a) && cc + Groups(a) <= e.captureCount && AllFrom(e, back, from, rs)
    ensures |r| == |rs|
    ensures forall i :: 0 <= i < |rs| ==> AllFrom(e, back, from, [rs[i]]) && r[i] == Repeat(e, a, back, cc, n, from, [rs[i]])
  {
    seq(|rs|, i requires 0 <= i < |rs| => Repeat(e, a, back, cc, n, from, [rs[i]]))
  }

  lemma {:induction false} RepeatFlatten(e: Env, a: Node, back: bool, cc: nat, n: nat, from: nat, rs: seq<State>)
    requires ValidNode(a) && cc + Groups(a) <= e.captureCount && AllFrom(e, back, from, rs)
    ensures Repeat(e, a, back, cc, n, from, rs) == Flatten(RepeatLists(e, a, back, cc, n, from, rs))
    decreases |rs|
  {
    hide ValidState, ValidNode, Repeat;
    if rs == [] {
      RepeatNothing(e, a, back, cc, n, from);
    } else {
      RepeatFlatten(e, a, back, cc, n, from, rs[1..]);
      RepeatConcat(e, a, back, cc, n, from, [rs[0]], rs[1..]);
      assert [rs[0]] + rs[1..] == rs;
      assert RepeatLists(e, a, back, cc, n, from, rs)[1..] == RepeatLists(e, a, back, cc, n, from, rs[1..]);
    }
  }

  lemma {:induction false} RepeatNothing(e: Env, a: Node, back: bool, cc: nat, n: nat, from: nat)
    requires ValidNode(a) && cc + Groups(a) <= e.captureCount
    ensures Repeat(e, a, back, cc, n, from, []) == []
    decreases n
  {
    if n > 0 {
      assert MatchesAll(e, a, back, cc, from, []) == [];
      RepeatNothing(e, a, back, cc, n - 1, from);
    }
  }

  /** The addresses and depths of `atom; loop atom; drop`. */
  ghost predicate TimesAt(m: Machine, len: nat, pa: nat, d: nat) {
    && len + 10 < 0x8000_0000
    && Decode(m.bc, pa + len) == Some(Instr.Loop(Behind(len + 5)))
    && Decode(m.bc, pa + len + 5) == Some(Instr.Drop)
    && AtDepth(m.bc, pa, d + 1) && AtDepth(m.bc, pa + len, d + 1) && AtDepth(m.bc, pa + len + 5, d + 1)
    && AtDepth(m.bc, pa + len + 6, d)
  }

  lemma MatchesAllSingle(e: Env, a: Node, back: bool, cc: nat, from: nat, s: State)
    requires ValidNode(a) && cc + Groups(a) <= e.captureCount && ValidState(e, s) && Toward(back, from, s.pos)
    ensures AllFrom(e, back, from, [s]) && AllFrom(e, back, from, Matches(e, a, back, cc, s))
    ensures MatchesAll(e, a, back, cc, from, [s]) == Matches(e, a, back, cc, s)
  {
    hide Matches;
    assert [s][1..] == [];
    assert MatchesAll(e, a, back, cc, from, []) == [];
    assert Matches(e, a, back, cc, [s][0]) + [] == Matches(e, a, back, cc, s);
  }

  lemma {:induction false} TimesDoes(m: Machine, a: Node, back: bool, cc: nat, pa: nat, n: nat, from: nat, s: State,
                                     stk: seq<nat>)
    requires ValidNode(a) && cc + Groups(a) <= m.env.captureCount <= 0x100 && n > 0
    requires ValidState(m.env, s) && Toward(back, from, s.pos)
    requires Runs(m, a, back, cc, pa)
    requires TimesAt(m, Len(Code(m.env.flags, a, back, cc)), pa, |stk|)
    ensures AllFrom(m.env, back, from, [s])
    ensures Does(m, pa, stk + [n], s, pa + Len(Code(m.env.flags, a, back, cc)) + 6, stk,
      Repeat(m.env, a, back, cc, n, from, [s]))
    decreases n
  {
    hide Matches, Code, AtDepth, Does, Len, Decode, ValidNode, Moves, Runs, MatchesAll, Behind, ToU32;
    var e := m.env;
    var len := Len(Code(e.flags, a, back, cc));
    var rs := Matches(e, a, back, cc, s);
    var pl, pd, end := pa + len, pa + len + 5, pa + len + 6;
    var stk1, stk2 := stk + [n], stk + [n - 1];
    assert |stk1| == |stk| + 1 && |stk2| == |stk| + 1;
    MatchesAllSingle(e, a, back, cc, from, s);
    var next := RepeatLists(e, a, back, cc, n - 1, from, rs);
    JumpBack(pa, len + 5);
    forall i | 0 <= i < |rs| ensures Does(m, pl, stk1, rs[i], end, stk, next[i]) {
      assert ValidState(e, rs[i]);
      StatePos(e, rs[i]);
      MovesLoop(m, pl, stk, n, rs[i], Behind(len + 5));
      if n == 1 {
        MovesDrop(m, pd, stk, 0, rs[i]);
        DoesMove(m, pd, stk2, rs[i], end, stk, rs[i]);
        DoesAfterMove(m, pl, stk1, rs[i], pd, stk2, rs[i], end, stk, [rs[i]]);
      } else {
        TimesDoes(m, a, back, cc, pa, n - 1, from, rs[i], stk);
        DoesAfterMove(m, pl, stk1, rs[i], pa, stk2, rs[i], end, stk, next[i]);
      }
    }
    RunsAt(m, a, back, cc, pa, s, stk1);
    DoesThen(m, pa, stk1, s, pl, stk1, rs, end, stk, next);
    RepeatFlatten(e, a, back, cc, n - 1, from, rs);
  }

  // ---- one or more ----

  lemma {:induction false} PlusDoes(m: Machine, a: Node, back: bool, cc: nat, greedy: bool, pa: nat, s: State, stk: seq<nat>)
    requires ValidNode(a) && cc + Groups(a) <= m.env.captureCount <= 0x100 && ValidState(m.env, s)
    requires Runs(m, a, back, cc, pa) && !NeedCheckAdvance(Code(m.env.flags, a, back, cc))
    requires var len := Len(Code(m.env.flags, a, back, cc));
      && len + 5 < 0x8000_0000
      && Decode(m.bc, pa + len) == Some(Instr.Split(!greedy, Behind(len + 5)))
      && AtDepth(m.bc, pa, |stk|) && AtDepth(m.bc, pa + len, |stk|) && AtDepth(m.bc, pa + len + 5, |stk|)
    ensures var len := Len(Code(m.env.flags, a, back, cc));
      Does(m, pa + len, stk, s, pa + len + 5, stk, Optional(m.env, a, back, cc, None, greedy, s))
    decreases Room(m.env, back, s.pos)
  {
    hide Matches, Code, AtDepth, Does, Len, Decode, ValidState, ValidNode, NeedCheckAdvance, Runs, Advancing, OptionalAll, Behind, ToU32;
    var e := m.env;
    var len := Len(Code(e.flags, a, back, cc));
    var adv := Advancing(Matches(e, a, back, cc, s), s.pos);
    UncheckedAdvances(e, a, back, cc, s);
    var ps := pa + len;
    StatePos(e, s);
    AdvancingFrom(e, back, s.pos, Matches(e, a, back, cc, s));
    var next := OptionalLists(e, a, back, cc, None, greedy, s.pos, adv);
    forall i | 0 <= i < |adv| ensures Does(m, ps, stk, adv[i], ps + 5, stk, next[i]) {
      StatePos(e, adv[i]);
      PlusDoes(m, a, back, cc, greedy, pa, adv[i], stk);
    }
    RunsAt(m, a, back, cc, pa, s, stk);
    DoesThen(m, pa, stk, s, ps, stk, adv, ps + 5, stk, next);
    OptionalAllFlatten(e, a, back, cc, None, greedy, s.pos, Room(e, back, s.pos), adv);
    DoesHere(m, ps + 5, stk, s);
    JumpBack(pa, len + 5);
    DoesSplit(m, ps, stk, s, !greedy, Behind(len + 5), pa, ps + 5, stk, [s], Flatten(next));
  }
}
