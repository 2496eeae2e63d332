/** Code fragments as transformers of match states: what a fragment does from any state stack,
    and how fragments compose. */
module RegexFragments {
  import opened Bytes
  import opened RegexCode
  import opened RegexText
  import opened RegexSyntax
  import opened RegexReference
  import opened RegexMachine

  /** Started at `pc` in state `s` with the stack `stk`, over any state stack, the machine arrives
      at `end` with the stack `stk2` and each of the states `outs` in turn, then fails. */
  ghost predicate Does(m: Machine, pc: nat, stk: seq<nat>, s: State, end: nat, stk2: seq<nat>, outs: seq<State>) {
    forall ss | SavedOk(m.bc, ss) :: Yields(m, ss, Run(pc, s, stk, ss), end, stk2, outs)
  }

  /** One step moves from `pc` to `pc2` and leaves the state stack alone. */
  ghost predicate Moves(m: Machine, pc: nat, stk: seq<nat>, s: State, pc2: nat, stk2: seq<nat>, s2: State) {
    forall ss: seq<Saved> {:trigger Run(pc, s, stk, ss)} :: Step(m, Run(pc, s, stk, ss)) == Run(pc2, s2, stk2, ss)
  }

  ghost predicate Dies(m: Machine, pc: nat, stk: seq<nat>, s: State) {
    forall ss: seq<Saved> {:trigger Run(pc, s, stk, ss)} :: Step(m, Run(pc, s, stk, ss)) == Fail(ss)
  }

  lemma DoesHere(m: Machine, pc: nat, stk: seq<nat>, s: State)
    requires AtDepth(m.bc, pc, |stk|)
    ensures Does(m, pc, stk, s, pc, stk, [s])
  {
    hide AtDepth, Yields;
    forall ss | SavedOk(m.bc, ss) ensures Yields(m, ss, Run(pc, s, stk, ss), pc, stk, [s]) {
      YieldsHere(m, ss, pc, stk, s);
    }
  }

  lemma DoesAfterMove(m: Machine, pc: nat, stk: seq<nat>, s: State, pc2: nat, stk2: seq<nat>, s2: State,
                      end: nat, stk3: seq<nat>, outs: seq<State>)
    requires AtDepth(m.bc, pc, |stk|) && AtDepth(m.bc, pc2, |stk2|)
    requires Moves(m, pc, stk, s, pc2, stk2, s2)
    requires Does(m, pc2, stk2, s2, end, stk3, outs)
    ensures Does(m, pc, stk, s, end, stk3, outs)
  {
    hide AtDepth, Yields, Step, SavedOk;
    forall ss | SavedOk(m.bc, ss) ensures Yields(m, ss, Run(pc, s, stk, ss), end, stk3, outs) {
      var a, b := Run(pc, s, stk, ss), Run(pc2, s2, stk2, ss);
      assert Step(m, a) == b;
      ReachOne(m, a);
      YieldsAfter(m, ss, a, b, end, stk3, outs);
    }
  }

  lemma DoesMove(m: Machine, pc: nat, stk: seq<nat>, s: State, pc2: nat, stk2: seq<nat>, s2: State)
    requires AtDepth(m.bc, pc, |stk|) && AtDepth(m.bc, pc2, |stk2|)
    requires Moves(m, pc, stk, s, pc2, stk2, s2)
    ensures Does(m, pc, stk, s, pc2, stk2, [s2])
  {
    hide Does, AtDepth, Moves;
    DoesHere(m, pc2, stk2, s2);
    DoesAfterMove(m, pc, stk, s, pc2, stk2, s2, pc2, stk2, [s2]);
  }

  lemma DoesFail(m: Machine, pc: nat, stk: seq<nat>, s: State, end: nat, stk2: seq<nat>)
    requires AtDepth(m.bc, pc, |stk|) && Dies(m, pc, stk, s)
    ensures Does(m, pc, stk, s, end, stk2, [])
  {
    hide AtDepth, Yields, Step, SavedOk;
    forall ss | SavedOk(m.bc, ss) ensures Yields(m, ss, Run(pc, s, stk, ss), end, stk2, []) {
      var a := Run(pc, s, stk, ss);
      assert Step(m, a) == Fail(ss);
      ReachOne(m, a);
      YieldsNothing(m, ss, end, stk2);
      YieldsAfter(m, ss, a, Fail(ss), end, stk2, []);
    }
  }

  /** From each state `outs[i]` at `mid` the states `next[i]` follow. */
  ghost predicate Each(m: Machine, mid: nat, stk1: seq<nat>, outs: seq<State>, end: nat, stk2: seq<nat>,
                       next: seq<seq<State>>)
  {
    |outs| == |next| && forall i :: 0 <= i < |outs| ==> Does(m, mid, stk1, outs[i], end, stk2, next[i])
  }

  lemma DoesThen(m: Machine, pc: nat, stk: seq<nat>, s: State, mid: nat, stk1: seq<nat>, outs: seq<State>,
                 end: nat, stk2: seq<nat>, next: seq<seq<State>>)
    requires Does(m, pc, stk, s, mid, stk1, outs)
    requires Each(m, mid, stk1, outs, end, stk2, next)
    ensures Does(m, pc, stk, s, end, stk2, Flatten(next))
  {
    hide Yields, SavedOk;
    forall ss | SavedOk(m.bc, ss) ensures Yields(m, ss, Run(pc, s, stk, ss), end, stk2, Flatten(next)) {
      forall i, ss1 | 0 <= i < |outs| && SavedOk(m.bc, ss1)
        ensures Yields(m, ss1, Run(mid, outs[i], stk1, ss1), end, stk2, next[i])
      {
        assert Does(m, mid, stk1, outs[i], end, stk2, next[i]);
      }
      YieldsThen(m, ss, Run(pc, s, stk, ss), mid, stk1, outs, end, stk2, next);
    }
  }

  /** A choice instruction at `pc` tries `pcA` first and `pcB` when that fails. */
  lemma DoesChoice(m: Machine, pc: nat, stk: seq<nat>, s: State, pcA: nat, pcB: nat, end: nat, stk2: seq<nat>,
                   a: seq<State>, b: seq<State>)
    requires AtDepth(m.bc, pc, |stk|) && AtDepth(m.bc, pcA, |stk|) && AtDepth(m.bc, pcB, |stk|)
    requires forall ss: seq<Saved> {:trigger Run(pc, s, stk, ss)} ::
      Step(m, Run(pc, s, stk, ss)) == Run(pcA, s, stk, Push(ss, SplitPoint, pcB, s, stk))
    requires Does(m, pcA, stk, s, end, stk2, a)
    requires Does(m, pcB, stk, s, end, stk2, b)
    ensures Does(m, pc, stk, s, end, stk2, a + b)
  {
    hide AtDepth, Yields, Exec;
    forall ss | SavedOk(m.bc, ss) ensures Yields(m, ss, Run(pc, s, stk, ss), end, stk2, a + b) {
      var extra := [Saved(SplitPoint, pcB, s.pos, s.caps, stk, 0)];
      var c, c1, c2 := Run(pc, s, stk, ss), Run(pcA, s, stk, ss + extra), Run(pcB, s, stk, ss);
      assert SavedOk(m.bc, ss + extra);
      assert Front(ss + extra) == ss && Last(ss + extra) == extra[0];
      assert Step(m, Fail(ss + extra)) == c2;
      ReachOne(m, Fail(ss + extra));
      YieldsAfter(m, ss, Fail(ss + extra), c2, end, stk2, b);
      YieldsAppend(m, ss, extra, c1, end, stk2, a, b);
      ReachOne(m, c);
      YieldsAfter(m, ss, c, c1, end, stk2, a + b);
    }
  }

  lemma DoesSplit(m: Machine, pc: nat, stk: seq<nat>, s: State, nextFirst: bool, off: u32, target: nat,
                  end: nat, stk2: seq<nat>, viaNext: seq<State>, viaTarget: seq<State>)
    requires Decode(m.bc, pc) == Some(Instr.Split(nextFirst, off)) && target == pc + 5 + ToI32(off)
    requires s.pos <= |m.env.text.units|
    requires AtDepth(m.bc, pc, |stk|) && AtDepth(m.bc, pc + 5, |stk|) && AtDepth(m.bc, target, |stk|)
    requires Does(m, pc + 5, stk, s, end, stk2, viaNext)
    requires Does(m, target, stk, s, end, stk2, viaTarget)
    ensures Does(m, pc, stk, s, end, stk2, if nextFirst then viaNext + viaTarget else viaTarget + viaNext)
  {
    hide Decode, AtDepth, Does;
    if nextFirst {
      DoesChoice(m, pc, stk, s, pc + 5, target, end, stk2, viaNext, viaTarget);
    } else {
      DoesChoice(m, pc, stk, s, target, pc + 5, end, stk2, viaTarget, viaNext);
    }
  }

  // ---- lists ----

  lemma {:induction false} FlattenAppend<T>(xs: seq<seq<T>>, ys: seq<seq<T>>)
    ensures Flatten(xs + ys) == Flatten(xs) + Flatten(ys)
    decreases |xs|
  {
    if xs == [] {
      assert xs + ys == ys;
    } else {
      assert (xs + ys)[1..] == xs[1..] + ys;
      FlattenAppend(xs[1..], ys);
    }
  }

  lemma {:induction false} FlattenSingles<T>(xs: seq<T>)
    ensures Flatten(seq(|xs|, i requires 0 <= i < |xs| => [xs[i]])) == xs
    decreases |xs|
  {
    var f := seq(|xs|, i requires 0 <= i < |xs| => [xs[i]]);
    if xs != [] {
      FlattenSingles(xs[1..]);
      assert f[1..] == seq(|xs[1..]|, i requires 0 <= i < |xs[1..]| => [xs[1..][i]]);
    }
  }

  /** The lists of matches after each of several states. */
  function MatchLists(e: Env, n: Node, back: bool, cc: nat, from: nat, rs: seq<State>): (r: seq<seq<State>>)
    requires ValidNode(n) && cc + Groups(n) <= e.captureCount && AllFrom(e, back, from, rs)
    ensures |r| == |rs| && forall i :: 0 <= i < |rs| ==> r[i] == Matches(e, n, back, cc, rs[i])
  {
    seq(|rs|, i requires 0 <= i < |rs| => Matches(e, n, back, cc, rs[i]))
  }

  lemma {:induction false} MatchesAllFlatten(e: Env, n: Node, back: bool, cc: nat, from: nat, rs: seq<State>)
    requires ValidNode(n) && cc + Groups(n) <= e.captureCount && AllFrom(e, back, from, rs)
    ensures MatchesAll(e, n, back, cc, from, rs) == Flatten(MatchLists(e, n, back, cc, from, rs))
    decreases |rs|
  {
    hide Matches, ValidState, ValidNode;
    if rs != [] {
      MatchesAllFlatten(e, n, back, cc, from, rs[1..]);
      assert MatchLists(e, n, back, cc, from, rs)[1..] == MatchLists(e, n, back, cc, from, rs[1..]);
    }
  }

  function OptionalLists(e: Env, a: Node, back: bool, cc: nat, more: Option<nat>, greedy: bool, from: nat,
                         rs: seq<State>): (r: seq<seq<State>>)
    requires ValidNode(a) && cc + Groups(a) <= e.captureCount && AllFrom(e, back, from, rs)
    ensures |r| == |rs| && forall i :: 0 <= i < |rs| ==> r[i] == Optional(e, a, back, cc, more, greedy, rs[i])
  {
    seq(|rs|, i requires 0 <= i < |rs| => Optional(e, a, back, cc, more, greedy, rs[i]))
  }

  lemma {:induction false} OptionalAllFlatten(e: Env, a: Node, back: bool, cc: nat, more: Option<nat>, greedy: bool,
                                              from: nat, room: nat, rs: seq<State>)
    requires ValidNode(a) && cc + Groups(a) <= e.captureCount && AllFrom(e, back, from, rs)
    requires forall k :: 0 <= k < |rs| ==> Room(e, back, rs[k].pos) < room
    ensures OptionalAll(e, a, back, cc, more, greedy, from, room, rs)
         == Flatten(OptionalLists(e, a, back, cc, more, greedy, from, rs))
    decreases |rs|
  {
    hide Optional, ValidState, ValidNode;
    if rs != [] {
      OptionalAllFlatten(e, a, back, cc, more, greedy, from, room, rs[1..]);
      assert OptionalLists(e, a, back, cc, more, greedy, from, rs)[1..]
          == OptionalLists(e, a, back, cc, more, greedy, from, rs[1..]);
    }
  }

  /** The states that moved away from `p`, each on its own list. */
  function AdvancingLists(rs: seq<State>, p: nat): (r: seq<seq<State>>)
    ensures |r| == |rs| && forall i :: 0 <= i < |rs| ==> r[i] == if rs[i].pos == p then [] else [rs[i]]
  {
    seq(|rs|, i requires 0 <= i < |rs| => if rs[i].pos == p then [] else [rs[i]])
  }

  lemma {:induction false} AdvancingFlatten(rs: seq<State>, p: nat)
    ensures Advancing(rs, p) == Flatten(AdvancingLists(rs, p))
    decreases |rs|
  {
    if rs != [] {
      AdvancingFlatten(rs[1..], p);
      assert AdvancingLists(rs, p)[1..] == AdvancingLists(rs[1..], p);
    }
  }

  lemma {:induction false} AdvancingAll(rs: seq<State>, p: nat)
    requires forall k :: 0 <= k < |rs| ==> rs[k].pos != p
    ensures Advancing(rs, p) == rs
    decreases |rs|
  {
    if rs != [] {
      AdvancingAll(rs[1..], p);
      assert rs == [rs[0]] + rs[1..];
    }
  }

  lemma {:induction false} AdvancingFrom(e: Env, back: bool, from: nat, rs: seq<State>)
    requires AllFrom(e, back, from, rs) && from <= |e.text.units|
    ensures AllFrom(e, back, from, Advancing(rs, from))
    ensures forall k :: 0 <= k < |Advancing(rs, from)| ==>
      Room(e, back, Advancing(rs, from)[k].pos) < Room(e, back, from)
  {
    var adv := Advancing(rs, from);
    forall k | 0 <= k < |adv|
      ensures ValidState(e, adv[k]) && Toward(back, from, adv[k].pos) && Room(e, back, adv[k].pos) < Room(e, back, from)
    {
      assert adv[k] in rs && adv[k].pos != from;
    }
  }
}
