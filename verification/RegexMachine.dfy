/** The backtracking machine: one step of the interpreter loop, the stack-depth scan over the
    byte code, and what it means for the machine to enumerate a list of outcomes. */
module RegexMachine {
  import opened Bytes
  import opened RegexCode
  import opened RegexText
  import opened RegexSyntax
  import opened RegexReference

  datatype Machine = Machine(env: Env, bc: seq<u8>)

  datatype Kind = SplitPoint | LookPoint(neg: bool) | GreedyPoint

  /** An entry of the state stack. `pc` is where to resume or, for a greedy quantifier, the
      address of its instruction. */
  datatype Saved = Saved(kind: Kind, pc: nat, pos: nat, caps: Captures, stk: seq<nat>, count: nat)

  /** `Greedy` is the state inside the loop of `simple_greedy_quant` after `q` iterations; `Fail`
      and `Accept` are the loop that unwinds the state stack after a failure or a `match`. */
  datatype Config =
    | Run(pc: nat, st: State, stk: seq<nat>, ss: seq<Saved>)
    | Greedy(pc: nat, q: nat, st: State, stk: seq<nat>, ss: seq<Saved>)
    | Fail(ss: seq<Saved>)
    | Accept(caps: Captures, ss: seq<Saved>)
    | Halt(result: Option<Captures>)
    | Stuck

  function Last<T>(s: seq<T>): (r: T)
    requires s != []
  {
    s[|s| - 1]
  }

  function Front<T>(s: seq<T>): (r: seq<T>)
    requires s != []
  {
    s[..|s| - 1]
  }

  // ---- binary search in the range instructions ----

  function Search(ps: seq<(u32, u32)>, c: int, lo: int, hi: int): (r: bool)
    requires 0 <= lo && hi < |ps|
    decreases hi - lo + 1
  {
    if lo > hi then false else
    var mid := (lo + hi) / 2;
    if c < ps[mid].0 then Search(ps, c, lo, mid - 1)
    else if c > ps[mid].1 then Search(ps, c, mid + 1, hi)
    else true
  }

  function Widen(ps: seq<(u16, u16)>): (r: seq<(u32, u32)>)
    ensures |r| == |ps|
  {
    seq(|ps|, i requires 0 <= i < |ps| => (ps[i].0 as u32, ps[i].1 as u32))
  }

  function InRange32(ps: seq<(u32, u32)>, c: int): (r: bool) {
    ps != [] && ps[0].0 <= c <= Last(ps).1 && Search(ps, c, 0, |ps| - 1)
  }

  /** In 16-bit ranges a last bound of 0xffff stands for infinity. */
  function InRange16(ps: seq<(u16, u16)>, c: int): (r: bool) {
    ps != [] && ps[0].0 <= c && ((c >= 0xffff && Last(ps).1 == 0xffff) || InRange32(Widen(ps), c))
  }

  /** The test of an instruction that reads one character. */
  predicate CharTest(f: Flags, i: Instr, c: codepoint)
    requires IsCharInstr(i)
  {
    match i
    case Char(v) => Fold(f, c) == v
    case Char32(v) => Fold(f, c) == v
    case Dot => !IsLineTerminator(c)
    case Any => true
    case Range(ps) => InRange16(ps, Fold(f, c))
    case Range32(ps) => InRange32(ps, Fold(f, c))
  }

  /** The position after a character instruction that succeeds at `p`. */
  function ReadChar(e: Env, i: Instr, p: nat): (r: Option<nat>)
    requires IsCharInstr(i)
    ensures r.Some? ==> p < r.value <= |e.text.units|
  {
    var n := |e.text.units|;
    if p >= n || !CharTest(e.flags, i, CharAt(e.text, p, n)) then None else Some(NextPos(e.text, p, n))
  }

  /** A simple instruction at `p`. */
  function ExecSimple(e: Env, i: Instr, p: nat): (r: Option<nat>)
    requires IsSimpleInstr(i)
    ensures r.Some? ==> p <= r.value
  {
    if IsCharInstr(i) then ReadChar(e, i, p)
    else if p > |e.text.units| then None
    else if i.LineStart? then (if AtLineStart(e, p) then Some(p) else None)
    else if i.LineEnd? then (if AtLineEnd(e, p) then Some(p) else None)
    else if AtWordBoundary(e, p) != i.negated then Some(p) else None
  }

  /** The recursive call made for one iteration of a simple atom: it runs up to `match`. */
  function RunSimple(m: Machine, pc: nat, p: nat): (r: Option<nat>)
    decreases |m.bc| - pc
  {
    match Decode(m.bc, pc)
    case Some(i) =>
      if i.Match? then Some(p)
      else if IsSimpleInstr(i) && ExecSimple(m.env, i, p).Some? then
        RunSimple(m, pc + Size(i), ExecSimple(m.env, i, p).value)
      else None
    case None => None
  }

  /** The two comparison loops of a back reference. */
  function CompareForward(e: Env, p1: nat, end1: nat, p: nat): (r: Option<nat>)
    requires end1 <= |e.text.units| && p <= |e.text.units|
    decreases end1 - p1
  {
    var n := |e.text.units|;
    if p1 >= end1 then Some(p)
    else if p >= n || Fold(e.flags, CharAt(e.text, p1, end1)) != Fold(e.flags, CharAt(e.text, p, n)) then None
    else CompareForward(e, NextPos(e.text, p1, end1), end1, NextPos(e.text, p, n))
  }

  function CompareBackward(e: Env, start1: nat, p1: nat, p: nat): (r: Option<nat>)
    requires p1 <= |e.text.units| && p <= |e.text.units|
    decreases p1
  {
    if p1 <= start1 then Some(p)
    else if p == 0 || Fold(e.flags, CharBefore(e.text, p1, start1)) != Fold(e.flags, CharBefore(e.text, p, 0)) then None
    else CompareBackward(e, start1, PrevPos(e.text, p1, start1), PrevPos(e.text, p, 0))
  }

  /** A loop counter is an unsigned word: below zero it wraps. */
  function CountDown(v: nat): (r: nat) {
    if v == 0 then 0xffff_ffff_ffff_ffff else v - 1
  }

  /** Continue at `pc`; a jump out of the code is caught here. */
  function At(pc: int, st: State, stk: seq<nat>, ss: seq<Saved>): (c: Config) {
    if pc < 0 then Stuck else Run(pc, st, stk, ss)
  }

  function Push(ss: seq<Saved>, kind: Kind, pc: int, st: State, stk: seq<nat>): (r: seq<Saved>)
    requires pc >= 0
  {
    ss + [Saved(kind, pc, st.pos, st.caps, stk, 0)]
  }

  /** The effect of instruction `i`, fetched at `pc`. */
  function Exec(m: Machine, i: Instr, pc: nat, st: State, stk: seq<nat>, ss: seq<Saved>): (c: Config)
  {
    var e := m.env;
    var next := pc + Size(i);
    if st.pos > |e.text.units| then Stuck
    else if IsSimpleInstr(i) then
      var p := ExecSimple(e, i, st.pos);
      if p.Some? then Run(next, st.(pos := p.value), stk, ss) else Fail(ss)
    else match i
    case Match => Accept(st.caps, ss)
    case Goto(off) => At(next + ToI32(off), st, stk, ss)
    case Split(nextFirst, off) =>
      var target := next + ToI32(off);
      if target < 0 then Stuck
      else if nextFirst then Run(next, st, stk, Push(ss, SplitPoint, target, st, stk))
      else Run(target, st, stk, Push(ss, SplitPoint, next, st, stk))
    case Look(neg, off) =>
      var target := next + ToI32(off);
      if target < 0 then Stuck else Run(next, st, stk, Push(ss, LookPoint(neg), target, st, stk))
    case Save(end, idx) =>
      var slot := 2 * idx + if end then 1 else 0;
      if slot >= |st.caps| then Stuck else Run(next, SaveSlot(st, slot), stk, ss)
    case SaveReset(first, last) =>
      if 2 * last + 1 >= |st.caps| then Stuck else Run(next, Reset(st, first, last + 1), stk, ss)
    case PushI32(v) => Run(next, st, stk + [v], ss)
    case PushCharPos => Run(next, st, stk + [st.pos], ss)
    case Drop => if stk == [] then Stuck else Run(next, st, Front(stk), ss)
    case CheckAdvance =>
      if stk == [] then Stuck
      else if Last(stk) == st.pos then Fail(ss)
      else Run(next, st, Front(stk), ss)
    case Loop(off) =>
      if stk == [] then Stuck else
      var left := CountDown(Last(stk));
      if left != 0 then At(next + ToI32(off), st, Front(stk) + [left], ss)
      else Run(next, st, Front(stk) + [left], ss)
    case BackRef(backward, idx) =>
      if idx >= e.captureCount then Fail(ss)
      else if 2 * idx + 1 >= |st.caps| then Stuck
      else if st.caps[2 * idx].None? || st.caps[2 * idx + 1].None? then Run(next, st, stk, ss)
      else
        var a, b := st.caps[2 * idx].value, st.caps[2 * idx + 1].value;
        if b > |e.text.units| then Stuck else
        var p := if backward then CompareBackward(e, a, b, st.pos) else CompareForward(e, a, b, st.pos);
        if p.Some? then Run(next, st.(pos := p.value), stk, ss) else Fail(ss)
    case Prev =>
      if st.pos == 0 then Fail(ss) else Run(next, st.(pos := PrevPos(e.text, st.pos, 0)), stk, ss)
    case SimpleGreedy(_, _, _, _) => Greedy(pc, 0, st, stk, ss)
    case _ => Stuck
  }

  /** Leaving the loop of `simple_greedy_quant` after `q` iterations. */
  function LeaveGreedy(pc: nat, i: Instr, q: nat, st: State, stk: seq<nat>, ss: seq<Saved>): (c: Config)
    requires i.SimpleGreedy?
  {
    var target := pc + 17 + ToI32(i.next);
    if q < i.min then Fail(ss)
    else if q > i.min then At(target, st, stk, ss + [Saved(GreedyPoint, pc, st.pos, st.caps, stk, q - i.min)])
    else At(target, st, stk, ss)
  }

  /** The machine's transition function. */
  function Step(m: Machine, c: Config): (r: Config) {
    match c
    case Run(pc, st, stk, ss) =>
      (match Decode(m.bc, pc)
       case Some(i) => Exec(m, i, pc, st, stk, ss)
       case None => Stuck)
    case Greedy(pc, q, st, stk, ss) =>
      (match Decode(m.bc, pc)
       case Some(SimpleGreedy(next, min, max, len)) =>
         var i := SimpleGreedy(next, min, max, len);
         var p := RunSimple(m, pc + 17, st.pos);
         if p.None? then LeaveGreedy(pc, i, q, st, stk, ss)
         else if q + 1 >= max && max != INFINITE then LeaveGreedy(pc, i, q + 1, st.(pos := p.value), stk, ss)
         else Greedy(pc, q + 1, st.(pos := p.value), stk, ss)
       case _ => Stuck)
    case Fail(ss) => if ss == [] then Halt(None) else Backtrack(m, Last(ss), Front(ss))
    case Accept(caps, ss) =>
      if ss == [] then Halt(Some(caps)) else
      var top := Last(ss);
      (match top.kind
       case LookPoint(true) => Fail(Front(ss))
       case LookPoint(false) => Run(top.pc, State(top.pos, caps), top.stk, Front(ss))
       case _ => Accept(caps, Front(ss)))
    case Halt(_) => c
    case Stuck => c
  }

  /** Failure with `top` on the state stack. */
  function Backtrack(m: Machine, top: Saved, rest: seq<Saved>): (c: Config) {
    match top.kind
    case SplitPoint => Run(top.pc, State(top.pos, top.caps), top.stk, rest)
    case LookPoint(neg) => if neg then Run(top.pc, State(top.pos, top.caps), top.stk, rest) else Fail(rest)
    case GreedyPoint =>
      match Decode(m.bc, top.pc)
      case Some(SimpleGreedy(next, min, max, len)) =>
        if top.pos > |m.env.text.units| || top.count == 0 then Stuck else
        var p := Backward(m.env.text, top.pos, len);
        if p.None? then Stuck else
        At(top.pc + 17 + ToI32(next), State(p.value, top.caps), top.stk,
           if top.count == 1 then rest else rest + [top.(pos := p.value, count := top.count - 1)])
      case _ => Stuck
  }

  // ---- the stack-depth scan ----

  function StackDelta(i: Instr): (r: int) {
    match i
    case PushI32(_) | PushCharPos => 1
    case Drop | CheckAdvance => -1
    case _ => 0
  }

  /** The stack depth which a linear scan from (`from`, `d`) assigns to `target`, if it gets there. */
  function Scan(bc: seq<u8>, from: nat, d: nat, target: nat): (r: Option<nat>)
    decreases |bc| - from
  {
    if from == target then Some(d)
    else if from > target then None
    else
      match Decode(bc, from)
      case Some(i) => if d + StackDelta(i) < 0 then None else Scan(bc, from + Size(i), d + StackDelta(i), target)
      case None => None
  }

  ghost predicate AtDepth(bc: seq<u8>, pc: nat, d: nat) {
    Scan(bc, 0, 0, pc) == Some(d)
  }

  lemma {:induction false} ScanNext(bc: seq<u8>, from: nat, d: nat, pc: nat, dp: nat, i: Instr)
    requires Scan(bc, from, d, pc) == Some(dp) && Decode(bc, pc) == Some(i) && dp + StackDelta(i) >= 0
    ensures Scan(bc, from, d, pc + Size(i)) == Some(dp + StackDelta(i))
    decreases |bc| - from
  {
    hide Decode, StackDelta;
    if from < pc {
      var j := Decode(bc, from).value;
      ScanNext(bc, from + Size(j), d + StackDelta(j), pc, dp, i);
    }
  }

  lemma DepthNext(bc: seq<u8>, pc: nat, d: nat, i: Instr)
    requires AtDepth(bc, pc, d) && Decode(bc, pc) == Some(i) && d + StackDelta(i) >= 0
    ensures AtDepth(bc, pc + Size(i), d + StackDelta(i))
  {
    ScanNext(bc, 0, 0, pc, d, i);
  }

  // ---- runs ----

  ghost predicate SavedOk(bc: seq<u8>, ss: seq<Saved>) {
    forall k :: 0 <= k < |ss| ==> AtDepth(bc, ss[k].pc, |ss[k].stk|)
  }

  /** The machine is not stuck and every stack it holds has the depth the scan gives to its address. */
  ghost predicate Ok(m: Machine, c: Config) {
    match c
    case Run(pc, st, stk, ss) => AtDepth(m.bc, pc, |stk|) && SavedOk(m.bc, ss)
    case Greedy(pc, q, st, stk, ss) => AtDepth(m.bc, pc, |stk|) && SavedOk(m.bc, ss)
    case Fail(ss) => SavedOk(m.bc, ss)
    case Accept(_, ss) => SavedOk(m.bc, ss)
    case Halt(_) => true
    case Stuck => false
  }

  /** `n` steps lead from `a` to `b`, and all configurations on the way are Ok. */
  ghost predicate Path(m: Machine, n: nat, a: Config, b: Config)
    decreases n
  {
    Ok(m, a) && if n == 0 then a == b else Path(m, n - 1, Step(m, a), b)
  }

  ghost predicate Reach(m: Machine, a: Config, b: Config) {
    exists n: nat :: Path(m, n, a, b)
  }

  lemma ReachStep(m: Machine, a: Config, b: Config)
    requires Ok(m, a) && Reach(m, Step(m, a), b)
    ensures Reach(m, a, b)
  {
    hide Ok, Step;
    var n: nat :| Path(m, n, Step(m, a), b);
    assert Path(m, n + 1, a, b);
  }

  lemma ReachOne(m: Machine, a: Config)
    requires Ok(m, a) && Ok(m, Step(m, a))
    ensures Reach(m, a, Step(m, a))
  {
    hide Ok, Step;
    assert Path(m, 0, Step(m, a), Step(m, a));
    ReachStep(m, a, Step(m, a));
  }

  lemma {:induction false} PathThen(m: Machine, n: nat, a: Config, b: Config, c: Config)
    requires Path(m, n, a, b) && Reach(m, b, c)
    ensures Reach(m, a, c)
    decreases n
  {
    hide Ok, Step;
    if n > 0 {
      PathThen(m, n - 1, Step(m, a), b, c);
      ReachStep(m, a, c);
    }
  }

  lemma ReachTrans(m: Machine, a: Config, b: Config, c: Config)
    requires Reach(m, a, b) && Reach(m, b, c)
    ensures Reach(m, a, c)
  {
    var n: nat :| Path(m, n, a, b);
    PathThen(m, n, a, b, c);
  }

  // ---- enumeration of outcomes ----

  /** Entries that a failure resumes and a `match` discards. */
  predicate AllChoices(ss: seq<Saved>) {
    forall k :: 0 <= k < |ss| ==> !ss[k].kind.LookPoint?
  }

  /** From `c` the machine arrives at `end` with each of the states `outs` in turn: it arrives
      with the first; whenever it is made to fail there, it arrives with the next; and after the
      last it fails with only `ss` left on the state stack. */
  ghost predicate Yields(m: Machine, ss: seq<Saved>, c: Config, end: nat, stk: seq<nat>, outs: seq<State>)
    decreases |outs|
  {
    if outs == [] then Reach(m, c, Fail(ss))
    else exists extra ::
      && AllChoices(extra)
      && Reach(m, c, Run(end, outs[0], stk, ss + extra))
      && Yields(m, ss, Fail(ss + extra), end, stk, outs[1..])
  }

  lemma YieldsAfter(m: Machine, ss: seq<Saved>, a: Config, b: Config, end: nat, stk: seq<nat>, outs: seq<State>)
    requires Reach(m, a, b) && Yields(m, ss, b, end, stk, outs)
    ensures Yields(m, ss, a, end, stk, outs)
  {
    if outs == [] {
      ReachTrans(m, a, b, Fail(ss));
    } else {
      var extra :| AllChoices(extra) && Reach(m, b, Run(end, outs[0], stk, ss + extra))
                   && Yields(m, ss, Fail(ss + extra), end, stk, outs[1..]);
      ReachTrans(m, a, b, Run(end, outs[0], stk, ss + extra));
    }
  }

  /** Arriving at once and then failing. */
  lemma YieldsHere(m: Machine, ss: seq<Saved>, end: nat, stk: seq<nat>, s: State)
    requires Ok(m, Run(end, s, stk, ss))
    ensures Yields(m, ss, Run(end, s, stk, ss), end, stk, [s])
  {
    var c := Run(end, s, stk, ss);
    assert ss + [] == ss;
    assert Path(m, 0, c, c);
    assert AllChoices([]);
    assert Path(m, 0, Fail(ss), Fail(ss));
    assert Yields(m, ss, Fail(ss + []), end, stk, [s][1..]);
  }

  lemma YieldsNothing(m: Machine, ss: seq<Saved>, end: nat, stk: seq<nat>)
    requires SavedOk(m.bc, ss)
    ensures Yields(m, ss, Fail(ss), end, stk, [])
  {
    assert Path(m, 0, Fail(ss), Fail(ss));
  }

  /** First `a` above the choice points `extra`, then, when those fail, `b`. */
  lemma {:induction false} YieldsAppend(m: Machine, ss: seq<Saved>, extra: seq<Saved>, c: Config, end: nat,
                                        stk: seq<nat>, a: seq<State>, b: seq<State>)
    requires AllChoices(extra)
    requires Yields(m, ss + extra, c, end, stk, a)
    requires Yields(m, ss, Fail(ss + extra), end, stk, b)
    ensures Yields(m, ss, c, end, stk, a + b)
    decreases |a|
  {
    hide Reach;
    if a == [] {
      assert a + b == b;
      YieldsAfter(m, ss, c, Fail(ss + extra), end, stk, b);
    } else {
      var more :| AllChoices(more) && Reach(m, c, Run(end, a[0], stk, ss + extra + more))
                  && Yields(m, ss + extra, Fail(ss + extra + more), end, stk, a[1..]);
      YieldsAppend(m, ss, extra, Fail(ss + extra + more), end, stk, a[1..], b);
      assert ss + extra + more == ss + (extra + more);
      assert AllChoices(extra + more);
      assert (a + b)[1..] == a[1..] + b && (a + b)[0] == a[0];
    }
  }

  function Flatten<T>(xs: seq<seq<T>>): (r: seq<T>) {
    if xs == [] then [] else xs[0] + Flatten(xs[1..])
  }

  /** Each outcome `outs[i]` at `mid`, whatever choice points lie below, leads to the outcomes `next[i]`. */
  ghost predicate Leads(m: Machine, mid: nat, stk1: seq<nat>, outs: seq<State>, end: nat, stk2: seq<nat>,
                        next: seq<seq<State>>)
  {
    |outs| == |next|
    && forall i, ss | 0 <= i < |outs| && SavedOk(m.bc, ss) ::
      Yields(m, ss, Run(mid, outs[i], stk1, ss), end, stk2, next[i])
  }

  lemma ReachOk(m: Machine, a: Config, b: Config)
    requires Reach(m, a, b)
    ensures Ok(m, b)
  {
    var n: nat :| Path(m, n, a, b);
    PathOk(m, n, a, b);
  }

  lemma {:induction false} PathOk(m: Machine, n: nat, a: Config, b: Config)
    requires Path(m, n, a, b)
    ensures Ok(m, b)
    decreases n
  {
    hide Ok, Step;
    if n > 0 {
      PathOk(m, n - 1, Step(m, a), b);
    }
  }

  /** Sequential composition of enumerations. */
  lemma {:induction false} YieldsThen(m: Machine, ss: seq<Saved>, c: Config, mid: nat, stk1: seq<nat>,
                                      outs: seq<State>, end: nat, stk2: seq<nat>, next: seq<seq<State>>)
    requires Yields(m, ss, c, mid, stk1, outs)
    requires Leads(m, mid, stk1, outs, end, stk2, next)
    ensures Yields(m, ss, c, end, stk2, Flatten(next))
    decreases |outs|
  {
    if outs != [] {
      var extra :| AllChoices(extra) && Reach(m, c, Run(mid, outs[0], stk1, ss + extra))
                   && Yields(m, ss, Fail(ss + extra), mid, stk1, outs[1..]);
      var c1 := Run(mid, outs[0], stk1, ss + extra);
      ReachOk(m, c, c1);
      assert Yields(m, ss + extra, c1, end, stk2, next[0]);
      assert Leads(m, mid, stk1, outs[1..], end, stk2, next[1..]);
      YieldsThen(m, ss, Fail(ss + extra), mid, stk1, outs[1..], end, stk2, next[1..]);
      YieldsAppend(m, ss, extra, c1, end, stk2, next[0], Flatten(next[1..]));
      YieldsAfter(m, ss, c, c1, end, stk2, Flatten(next));
    }
  }
}
