/** The interpreter loop, with its capture array, its fixed stack and its state stack. */
module RegexExec {
  import opened Bytes
  import opened RegexCode
  import opened RegexText
  import opened RegexSyntax
  import opened RegexReference
  import opened RegexMachine
  import opened RegexDepth
  import opened RegexProgram
  import opened RegexSafety
  import opened RegexCompiler

  // ---- reading characters ----

  /** The binary search of a range instruction. The indices are unsigned: they never go below zero. */
  method SearchPairs(ps: seq<(u32, u32)>, c: int) returns (found: bool)
    requires ps != []
    ensures found == InRange32(ps, c)
  {
    if c < ps[0].0 {
      return false;
    }
    var idxMin: nat, idxMax: nat := 0, |ps| - 1;
    if c > ps[idxMax].1 {
      return false;
    }
    while idxMin <= idxMax
      invariant idxMax < |ps|
      invariant InRange32(ps, c) == Search(ps, c, idxMin, idxMax)
      decreases idxMax + 1 - idxMin
    {
      var idx := (idxMin + idxMax) / 2;
      if c < ps[idx].0 {
        assert idx > 0;
        idxMax := idx - 1;
      } else if c > ps[idx].1 {
        idxMin := idx + 1;
      } else {
        return true;
      }
    }
    return false;
  }

  method SearchPairs16(ps: seq<(u16, u16)>, c: int) returns (found: bool)
    requires ps != []
    ensures found == InRange16(ps, c)
  {
    if c < ps[0].0 {
      return false;
    }
    if c >= 0xffff && ps[|ps| - 1].1 == 0xffff {
      return true;
    }
    found := SearchPairs(Widen(ps), c);
  }

  /** A character instruction: the position after it, if it succeeds. */
  method TestChar(e: Env, i: Instr, cptr: nat) returns (r: Option<nat>)
    requires IsCharInstr(i)
    ensures r == ReadChar(e, i, cptr)
  {
    var n := |e.text.units|;
    if cptr >= n {
      return None;
    }
    var c := CharAt(e.text, cptr, n);
    var ok: bool;
    match i {
      case Range(ps) =>
        if ps == [] { ok := false; } else { ok := SearchPairs16(ps, Fold(e.flags, c)); }
      case Range32(ps) =>
        if ps == [] { ok := false; } else { ok := SearchPairs(ps, Fold(e.flags, c)); }
      case Char(v) => ok := Fold(e.flags, c) == v;
      case Char32(v) => ok := Fold(e.flags, c) == v;
      case Dot => ok := !IsLineTerminator(c);
      case Any => ok := true;
    }
    r := if ok then Some(NextPos(e.text, cptr, n)) else None;
  }

  method TestSimple(e: Env, i: Instr, cptr: nat) returns (r: Option<nat>)
    requires IsSimpleInstr(i)
    ensures r == ExecSimple(e, i, cptr)
  {
    if IsCharInstr(i) {
      r := TestChar(e, i, cptr);
    } else if cptr > |e.text.units| {
      r := None;
    } else if i.LineStart? {
      r := if AtLineStart(e, cptr) then Some(cptr) else None;
    } else if i.LineEnd? {
      r := if AtLineEnd(e, cptr) then Some(cptr) else None;
    } else {
      r := if AtWordBoundary(e, cptr) != i.negated then Some(cptr) else None;
    }
  }

  /** One iteration of a simple atom: the interpreter calls itself without a state stack. */
  method RunAtom(m: Machine, pc0: nat, cptr0: nat) returns (r: Option<nat>)
    ensures r == RunSimple(m, pc0, cptr0)
  {
    hide Decode, ExecSimple, IsSimpleInstr, Size;
    var pc, cptr := pc0, cptr0;
    while true
      invariant RunSimple(m, pc0, cptr0) == RunSimple(m, pc, cptr)
      decreases |m.bc| - pc
    {
      var i := Decode(m.bc, pc);
      if i.None? {
        return None;
      }
      if i.value.Match? {
        return Some(cptr);
      }
      if !IsSimpleInstr(i.value) {
        return None;
      }
      var q := TestSimple(m.env, i.value, cptr);
      if q.None? {
        return None;
      }
      SizePositive(i.value);
      cptr := q.value;
      pc := pc + Size(i.value);
    }
  }

  lemma SizePositive(i: Instr)
    ensures Size(i) > 0
  {
  }

  method MatchBack(e: Env, start1: nat, end1: nat, cptr0: nat, backward: bool) returns (r: Option<nat>)
    requires end1 <= |e.text.units| && cptr0 <= |e.text.units|
    ensures r == if backward then CompareBackward(e, start1, end1, cptr0) else CompareForward(e, start1, end1, cptr0)
  {
    var n := |e.text.units|;
    var cptr: nat := cptr0;
    if !backward {
      var cptr1: nat := start1;
      while cptr1 < end1
        invariant cptr <= n
        invariant CompareForward(e, start1, end1, cptr0) == CompareForward(e, cptr1, end1, cptr)
        decreases end1 - cptr1
      {
        if cptr >= n || Fold(e.flags, CharAt(e.text, cptr1, end1)) != Fold(e.flags, CharAt(e.text, cptr, n)) {
          return None;
        }
        cptr1, cptr := NextPos(e.text, cptr1, end1), NextPos(e.text, cptr, n);
      }
    } else {
      var cptr1: nat := end1;
      while cptr1 > start1
        invariant cptr1 <= n && cptr <= n
        invariant CompareBackward(e, start1, end1, cptr0) == CompareBackward(e, start1, cptr1, cptr)
        decreases cptr1
      {
        if cptr == 0 || Fold(e.flags, CharBefore(e.text, cptr1, start1)) != Fold(e.flags, CharBefore(e.text, cptr, 0)) {
          return None;
        }
        cptr1, cptr := PrevPos(e.text, cptr1, start1), PrevPos(e.text, cptr, 0);
      }
    }
    r := Some(cptr);
  }

  /** Back over `count` characters. */
  method GoBack(t: Text, cptr0: nat, count: nat) returns (cptr: nat)
    requires cptr0 <= |t.units| && Backward(t, cptr0, count).Some?
    ensures Some(cptr) == Backward(t, cptr0, count)
  {
    cptr := cptr0;
    var i := 0;
    while i < count
      invariant 0 <= i <= count && cptr <= |t.units|
      invariant Backward(t, cptr0, count) == Backward(t, cptr, count - i)
    {
      cptr := PrevPos(t, cptr, 0);
      i := i + 1;
    }
  }

  // ---- the interpreter ----

  /** The variables of the interpreter loop. While `running`, the next thing to do is to fetch an instruction;
      otherwise the state stack is being unwound, after a `match` if `ret` holds and after a failure if not. */
  class Interpreter {
    const m: Machine
    const capture: array<Option<nat>>
    const stack: array<nat>
    var stackLen: nat
    var pc: nat
    var cptr: nat
    var states: seq<Saved>
    var running: bool
    var ret: bool

    constructor (m: Machine, capture: array<Option<nat>>, stackSize: nat, cptr: nat)
      ensures this.m == m && this.capture == capture && fresh(stack) && stack.Length == stackSize
      ensures stackLen == 0 && pc == 0 && this.cptr == cptr && states == [] && running
    {
      this.m := m;
      this.capture := capture;
      stack := new nat[stackSize];
      stackLen, pc, this.cptr, states, running, ret := 0, 0, cptr, [], true, false;
    }

    ghost predicate Valid()
      reads this
    {
      && stackLen <= stack.Length
      && forall k :: 0 <= k < |states| ==> |states[k].caps| == capture.Length && |states[k].stk| <= stack.Length
    }

    ghost function Now(): (c: Config)
      requires Valid()
      reads this, capture, stack
    {
      if running then Config.Run(pc, State(cptr, capture[..]), stack[..stackLen], states)
      else if ret then Accept(capture[..], states)
      else Fail(states)
    }

    /** The next configuration is neither stuck nor too deep for the stack. */
    ghost predicate NextFits()
      requires Valid()
      reads this, capture, stack
    {
      StacksWithin(Step(m, Now()), stack.Length)
    }

    method PushState(kind: Kind, pc1: nat, count: nat)
      requires Valid()
      modifies this`states
      ensures Valid()
      ensures states == old(states) + [Saved(kind, pc1, cptr, capture[..], stack[..stackLen], count)]
    {
      states := states + [Saved(kind, pc1, cptr, capture[..], stack[..stackLen], count)];
    }

    method NoMatch()
      modifies this`running, this`ret
      ensures !running && !ret
    {
      running, ret := false, false;
    }

    /** Copy a saved stack back. */
    method RestoreStack(top: Saved)
      requires |top.stk| <= stack.Length
      modifies stack, this`stackLen
      ensures stackLen == |top.stk| && stack[..stackLen] == top.stk
    {
      stackLen := |top.stk|;
      forall i | 0 <= i < stackLen {
        stack[i] := top.stk[i];
      }
    }

    method RestoreCaptures(top: Saved)
      requires |top.caps| == capture.Length
      modifies capture
      ensures capture[..] == top.caps
    {
      forall i | 0 <= i < capture.Length {
        capture[i] := top.caps[i];
      }
    }

    /** Jumps and choice points. */
    method DoJump(i: Instr)
      requires Valid() && running && Decode(m.bc, pc) == Some(i) && NextFits() && cptr <= |m.env.text.units|
      requires i.Goto? || i.Split? || i.Look? || i.Match?
      modifies this
      ensures Valid() && Now() == old(Step(m, Now()))
    {
      hide Decode, CharTest, ReadChar, ExecSimple;
      var next := pc + Size(i);
      match i {
        case Goto(off) =>
          pc := next + ToI32(off);
        case Split(nextFirst, off) =>
          var pc1;
          if nextFirst {
            pc1 := next + ToI32(off);
            pc := next;
          } else {
            pc1 := next;
            pc := next + ToI32(off);
          }
          PushState(SplitPoint, pc1, 0);
        case Look(neg, off) =>
          PushState(LookPoint(neg), next + ToI32(off), 0);
          pc := next;
        case Match =>
          running, ret := false, true;
      }
    }

    method DoSave(i: Instr)
      requires Valid() && running && Decode(m.bc, pc) == Some(i) && NextFits() && cptr <= |m.env.text.units|
      requires i.Save?
      modifies this, capture
      ensures Valid() && Now() == old(Step(m, Now()))
    {
      hide Decode, CharTest, ReadChar, ExecSimple;
      ghost var was := capture[..];
      var slot := 2 * i.idx + if i.end then 1 else 0;
      capture[slot] := Some(cptr);
      assert capture[..] == was[slot := Some(cptr)];
      pc := pc + Size(i);
    }

    method DoReset(i: Instr)
      requires Valid() && running && Decode(m.bc, pc) == Some(i) && NextFits() && cptr <= |m.env.text.units|
      requires i.SaveReset?
      modifies this, capture
      ensures Valid() && Now() == old(Step(m, Now()))
    {
      hide Decode, CharTest, ReadChar, ExecSimple;
      assert 2 * i.last + 1 < capture.Length;
      ClearGroups(i.first, i.last);
      pc := pc + Size(i);
    }

    method ClearGroups(first: nat, last: nat)
      requires 2 * last + 1 < capture.Length
      modifies capture
      ensures capture[..] == Reset(State(cptr, old(capture[..])), first, last + 1).caps
    {
      var val := first;
      while val <= last
        invariant first <= val && (if first <= last then val <= last + 1 else val == first)
        invariant forall k :: 0 <= k < capture.Length ==>
          capture[k] == if 2 * first <= k < 2 * val then None else old(capture[..])[k]
        decreases last + 1 - val
      {
        capture[2 * val] := None;
        capture[2 * val + 1] := None;
        val := val + 1;
      }
      ghost var was := old(capture[..]);
      forall k | 0 <= k < capture.Length ensures capture[k] == Reset(State(cptr, was), first, last + 1).caps[k] {
        assert capture[k] == if 2 * first <= k < 2 * (last + 1) then None else was[k];
      }
    }

    /** The operand stack. */
    method DoStack(i: Instr)
      requires Valid() && running && Decode(m.bc, pc) == Some(i) && NextFits() && cptr <= |m.env.text.units|
      requires i.PushI32? || i.PushCharPos? || i.Drop? || i.CheckAdvance? || i.Loop?
      modifies this, stack
      ensures Valid() && Now() == old(Step(m, Now()))
    {
      hide Decode, CharTest, ReadChar, ExecSimple;
      var next := pc + Size(i);
      ghost var was := stack[..stackLen];
      match i {
        case PushI32(v) =>
          assert |was + [v as int]| <= stack.Length;
          stack[stackLen] := v;
          stackLen := stackLen + 1;
          assert stack[..stackLen] == was + [v];
        case PushCharPos =>
          assert |was + [cptr]| <= stack.Length;
          stack[stackLen] := cptr;
          stackLen := stackLen + 1;
          assert stack[..stackLen] == was + [cptr];
        case Drop =>
          stackLen := stackLen - 1;
          assert stack[..stackLen] == Front(was);
        case CheckAdvance =>
          assert Last(was) == stack[stackLen - 1];
          stackLen := stackLen - 1;
          assert stack[..stackLen] == Front(was);
          if stack[stackLen] == cptr {
            NoMatch();
          }
        case Loop(off) =>
          assert Last(was) == stack[stackLen - 1];
          stack[stackLen - 1] := CountDown(stack[stackLen - 1]);
          assert stack[..stackLen] == Front(was) + [CountDown(Last(was))];
          if stack[stackLen - 1] != 0 {
            next := next + ToI32(off);
          }
      }
      pc := next;
    }

    /** Instructions that test or move the position. */
    method DoText(i: Instr)
      requires Valid() && running && Decode(m.bc, pc) == Some(i) && NextFits() && cptr <= |m.env.text.units|
      requires capture.Length == 2 * m.env.captureCount
      requires IsSimpleInstr(i) || i.Prev? || i.BackRef?
      modifies this
      ensures Valid() && Now() == old(Step(m, Now()))
    {
      hide Decode, CharTest, ReadChar, ExecSimple, CompareForward, CompareBackward;
      var next := pc + Size(i);
      if IsSimpleInstr(i) {
        var r := TestSimple(m.env, i, cptr);
        if r.None? {
          NoMatch();
        } else {
          cptr := r.value;
        }
      } else if i.Prev? {
        if cptr == 0 {
          NoMatch();
        } else {
          cptr := PrevPos(m.env.text, cptr, 0);
        }
      } else {
        if i.idx >= m.env.captureCount {
          NoMatch();
        } else if capture[2 * i.idx].Some? && capture[2 * i.idx + 1].Some? {
          var r := MatchBack(m.env, capture[2 * i.idx].value, capture[2 * i.idx + 1].value, cptr, i.backward);
          if r.None? {
            NoMatch();
          } else {
            cptr := r.value;
          }
        }
      }
      pc := next;
    }

    /** The greedy fast path: count the iterations, then leave an entry that gives them back. */
    method DoGreedy(i: Instr, ghost n: nat, ghost answer: Option<Captures>) returns (ghost left: nat)
      requires Valid() && running && Decode(m.bc, pc) == Some(i) && i.SimpleGreedy?
      requires cptr <= |m.env.text.units|
      requires Path(m, n, Now(), Halt(answer))
      modifies this
      ensures Valid() && left < n && Path(m, left, Now(), Halt(answer))
    {
      hide Decode, RunSimple, Ok, Step, LeaveGreedy, ToI32;
      StepIntoGreedy(m, pc, State(cptr, capture[..]), stack[..stackLen], states, i);
      left := n - 1;
      assert Path(m, left, Greedy(pc, 0, State(cptr, capture[..]), stack[..stackLen], states), Halt(answer));
      var pc0, pc1 := pc, pc + 17;
      var target := pc1 + ToI32(i.next);
      var q := 0;
      ghost var ss := states;
      while true
        invariant Valid() && running && pc == pc0 && states == ss
        invariant left < n
        invariant Path(m, left, Greedy(pc0, q, State(cptr, capture[..]), stack[..stackLen], states), Halt(answer))
        decreases left
      {
        var res := RunAtom(m, pc1, cptr);
        ghost var here := Greedy(pc0, q, State(cptr, capture[..]), stack[..stackLen], states);
        StepGreedy(m, pc0, q, State(cptr, capture[..]), stack[..stackLen], states, i);
        assert left > 0 && Path(m, left - 1, Step(m, here), Halt(answer));
        left := left - 1;
        if res.None? {
          break;
        }
        cptr := res.value;
        q := q + 1;
        if q >= i.max && i.max != INFINITE {
          break;
        }
      }
      ghost var out := LeaveGreedy(pc0, i, q, State(cptr, capture[..]), stack[..stackLen], states);
      assert Path(m, left, out, Halt(answer));
      PathNotStuck(m, left, out, answer);
      LeaveIs(pc0, i, q, State(cptr, capture[..]), stack[..stackLen], states);
      if q < i.min {
        NoMatch();
      } else {
        if q > i.min {
          PushState(GreedyPoint, pc0, q - i.min);
        }
        pc := target;
      }
    }

    /** One round of the loop that unwinds the state stack. */
    method Unwind()
      requires Valid() && !running && states != [] && NextFits()
      modifies this, capture, stack
      ensures Valid() && Now() == old(Step(m, Now()))
    {
      hide Decode, Backward;
      var top := Last(states);
      ghost var before := states;
      match top.kind {
        case SplitPoint =>
          if !ret {
            RestoreCaptures(top);
            RestoreStack(top);
            pc, cptr, running := top.pc, top.pos, true;
          }
          states := Front(states);
        case GreedyPoint =>
          if !ret {
            RestoreCaptures(top);
            RestoreStack(top);
            var i := Decode(m.bc, top.pc);
            var p := GoBack(m.env.text, top.pos, i.value.len);
            pc, cptr, running := top.pc + 17 + ToI32(i.value.next), p, true;
            states := if top.count == 1 then Front(states)
                      else Front(states) + [top.(pos := p, count := top.count - 1)];
          } else {
            states := Front(states);
          }
        case LookPoint(neg) =>
          var resume := ret != neg;
          if resume {
            if neg {
              RestoreCaptures(top);
            }
            RestoreStack(top);
            pc, cptr, running := top.pc, top.pos, true;
          } else {
            ret := false;
          }
          states := Front(states);
      }
    }

    /** Runs until the state stack is empty; the ghost `n` is the number of steps of the machine. */
    method Loop(ghost n: nat, ghost answer: Option<Captures>, ghost code: seq<Instr>) returns (r: bool)
      requires Valid() && running && Path(m, n, Now(), Halt(answer))
      requires CodeAt(m.bc, 0, code) && |m.bc| == Len(code) && stack.Length == MaxDepth(code, 0, 0)
      requires capture.Length == 2 * m.env.captureCount
      modifies this, capture, stack
      ensures r <==> answer.Some?
      ensures r ==> capture[..] == answer.value
    {
      hide Decode, Step, Ok, CodeAt, Len, MaxDepth, StacksWithin;
      ghost var left := n;
      while true
        invariant Valid() && Path(m, left, Now(), Halt(answer))
        decreases left
      {
        NotHalted(m, left, Now(), answer);
        NextIsWithin(m, left, Now(), answer, code);
        if running {
          var i := Decode(m.bc, pc);
          FetchOk(m, Now());
          if i.value.SimpleGreedy? {
            left := DoGreedy(i.value, left, answer);
          } else {
            if i.value.Goto? || i.value.Split? || i.value.Look? || i.value.Match? {
              DoJump(i.value);
            } else if i.value.Save? {
              DoSave(i.value);
            } else if i.value.SaveReset? {
              DoReset(i.value);
            } else if IsSimpleInstr(i.value) || i.value.Prev? || i.value.BackRef? {
              DoText(i.value);
            } else {
              DoStack(i.value);
            }
            left := left - 1;
          }
        } else if states == [] {
          EmptyStack(m, left, Now(), answer);
          return ret;
        } else {
          Unwind();
          left := left - 1;
        }
      }
    }
  }

  lemma StepIntoGreedy(m: Machine, pc: nat, st: State, stk: seq<nat>, ss: seq<Saved>, i: Instr)
    requires Decode(m.bc, pc) == Some(i) && i.SimpleGreedy? && st.pos <= |m.env.text.units|
    ensures Step(m, Run(pc, st, stk, ss)) == Greedy(pc, 0, st, stk, ss)
  {
    hide Decode;
  }

  lemma StepGreedy(m: Machine, pc: nat, q: nat, st: State, stk: seq<nat>, ss: seq<Saved>, i: Instr)
    requires Decode(m.bc, pc) == Some(i) && i.SimpleGreedy?
    ensures Step(m, Greedy(pc, q, st, stk, ss)) ==
      var p := RunSimple(m, pc + 17, st.pos);
      if p.None? then LeaveGreedy(pc, i, q, st, stk, ss)
      else if q + 1 >= i.max && i.max != INFINITE then LeaveGreedy(pc, i, q + 1, st.(pos := p.value), stk, ss)
      else Greedy(pc, q + 1, st.(pos := p.value), stk, ss)
  {
    hide Decode, RunSimple, LeaveGreedy;
  }

  lemma LeaveIs(pc: nat, i: Instr, q: nat, st: State, stk: seq<nat>, ss: seq<Saved>)
    requires i.SimpleGreedy?
    ensures LeaveGreedy(pc, i, q, st, stk, ss) ==
      var target := pc + 17 + ToI32(i.next);
      if q < i.min then Fail(ss)
      else if q > i.min then At(target, st, stk, ss + [Saved(GreedyPoint, pc, st.pos, st.caps, stk, q - i.min)])
      else At(target, st, stk, ss)
  {
  }

  lemma PathNotStuck(m: Machine, n: nat, c: Config, answer: Option<Captures>)
    requires Path(m, n, c, Halt(answer))
    ensures !c.Stuck?
  {
  }

  lemma NotHalted(m: Machine, n: nat, c: Config, answer: Option<Captures>)
    requires Path(m, n, c, Halt(answer)) && !c.Halt?
    ensures n > 0 && Path(m, n - 1, Step(m, c), Halt(answer))
  {
    hide Step, Ok;
  }

  lemma NextIsWithin(m: Machine, n: nat, c: Config, answer: Option<Captures>, code: seq<Instr>)
    requires n > 0 && Path(m, n, c, Halt(answer))
    requires CodeAt(m.bc, 0, code) && |m.bc| == Len(code)
    ensures StacksWithin(Step(m, c), MaxDepth(code, 0, 0)) && !Step(m, c).Stuck?
  {
    hide Step, Ok, CodeAt, Len, MaxDepth, StacksWithin;
    PathStart(m, n - 1, Step(m, c), answer);
    PathNotStuck(m, n - 1, Step(m, c), answer);
    OkWithin(m, code, Step(m, c));
  }

  lemma PathStart(m: Machine, n: nat, c: Config, answer: Option<Captures>)
    requires Path(m, n, c, Halt(answer))
    ensures Ok(m, c)
  {
    hide Step, Ok;
  }

  /** A configuration whose successor is not stuck has an instruction to fetch and a position in the text. */
  lemma FetchOk(m: Machine, c: Config)
    requires c.Run? && !Step(m, c).Stuck?
    ensures Decode(m.bc, c.pc).Some? && c.st.pos <= |m.env.text.units|
  {
    hide Decode;
  }

  lemma EmptyStack(m: Machine, n: nat, c: Config, answer: Option<Captures>)
    requires n > 0 && Path(m, n, c, Halt(answer))
    requires (c.Fail? && c.ss == []) || (c.Accept? && c.ss == [])
    ensures answer == if c.Accept? then Some(c.caps) else None
  {
    assert Path(m, n - 1, Step(m, c), Halt(answer));
    HaltPath(m, n - 1, if c.Accept? then Some(c.caps) else None, answer);
  }

  lemma {:induction false} HaltPath(m: Machine, n: nat, a: Option<Captures>, b: Option<Captures>)
    requires Path(m, n, Halt(a), Halt(b))
    ensures a == b
    decreases n
  {
    if n > 0 {
      HaltPath(m, n - 1, a, b);
    }
  }

  /** A run that ends is a path: no state on the way is stuck. */
  lemma {:induction false} EndIsPath(m: Machine, k: nat, c: Config, r: Option<Captures>)
    requires Iterate(m, k, c) == Halt(r)
    requires forall j: nat | j <= k :: Ok(m, Iterate(m, j, c))
    ensures Path(m, k, c, Halt(r))
    decreases k
  {
    hide Ok, Step;
    assert Iterate(m, 0, c) == c;
    if k > 0 {
      forall j: nat | j <= k - 1
        ensures Ok(m, Iterate(m, j, Step(m, c)))
      {
        assert Iterate(m, j + 1, c) == Iterate(m, j, Step(m, c));
      }
      EndIsPath(m, k - 1, Step(m, c), r);
    }
  }

  /** The run from `p` ends. */
  ghost predicate Ends(m: Machine, p: nat) {
    exists k: nat :: Iterate(m, k, Start(m.env, p)).Halt?
  }

  lemma EndingPath(m: Machine, n: Node, sticky: bool, p: nat) returns (k: nat, r: Option<Captures>)
    requires Compiled(m, n, sticky) && p <= |m.env.text.units|
    requires Boundary(m.env.text, p) || Ends(m, p)
    ensures ValidNode(n) && 1 + Groups(n) <= m.env.captureCount
    ensures Path(m, k, Start(m.env, p), Halt(r)) && Iterate(m, k, Start(m.env, p)) == Halt(r)
    ensures Boundary(m.env.text, p) ==> r == Answer(Outcomes(m.env, n, sticky, p))
  {
    hide Ok, Step, Compiled, Outcomes, Safe, Loaded, StacksWithin, MaxDepth, Boundary, Inner;
    CompiledParts(m, n, sticky);
    if Boundary(m.env.text, p) {
      BoundaryBound(m.env.text, p);
      CompilerCorrect(m, n, sticky, p);
      r := Answer(Outcomes(m.env, n, sticky, p));
      k :| Path(m, k, Start(m.env, p), Halt(r));
      PathStates(m, k, Start(m.env, p), r, k);
    } else {
      k :| Iterate(m, k, Start(m.env, p)).Halt?;
      r := Iterate(m, k, Start(m.env, p)).result;
      forall j: nat | j <= k
        ensures Ok(m, Iterate(m, j, Start(m.env, p)))
      {
        RunSafe(m, n, sticky, p, j);
      }
      EndIsPath(m, k, Start(m.env, p), r);
    }
  }

  /** Runs compiled byte code on a subject: the answer is the one the machine's run ends with and, from a start index
      on a character boundary, the first outcome of the reference semantics. `stackSize` is the count in the header. */
  method LreExec(capture: array<Option<nat>>, e: Env, bc: seq<u8>, stackSize: nat, cindex: nat,
                 ghost n: Node, ghost sticky: bool) returns (r: bool)
    requires Compiled(Machine(e, bc), n, sticky) && cindex <= |e.text.units|
    requires Boundary(e.text, cindex) || Ends(Machine(e, bc), cindex)
    requires stackSize == MaxDepth(ProgramCode(e.flags, n, sticky), 0, 0)
    requires capture.Length == 2 * e.captureCount
    modifies capture
    ensures ValidNode(n) && 1 + Groups(n) <= e.captureCount
    ensures exists k: nat ::
      Iterate(Machine(e, bc), k, Start(e, cindex)) == Halt(if r then Some(capture[..]) else None)
    ensures Boundary(e.text, cindex) ==> (r <==> Outcomes(e, n, sticky, cindex) != [])
    ensures Boundary(e.text, cindex) && r ==> capture[..] == Outcomes(e, n, sticky, cindex)[0].caps
  {
    hide MaxDepth, Compiled, Outcomes, Step, Ok, Path, Code, CodeAt, Iterate, Boundary;
    ghost var m := Machine(e, bc);
    forall i | 0 <= i < capture.Length {
      capture[i] := None;
    }
    assert capture[..] == NoCaptures(e);
    var run := new Interpreter(Machine(e, bc), capture, stackSize, cindex);
    assert run.stack[..0] == [];
    CompiledParts(m, n, sticky);
    ProgramLayout(m, n, sticky);
    ghost var steps, answer := EndingPath(m, n, sticky, cindex);
    r := run.Loop(steps, answer, ProgramCode(e.flags, n, sticky));
    assert answer == if r then Some(capture[..]) else None;
  }
}
