/** The stack-depth scan: emitted code leaves the depth as it found it, never goes below it, and
    never exceeds the maximum that is stored in the header. */
module RegexDepth {
  import opened Bytes
  import opened RegexCode
  import opened RegexText
  import opened RegexSyntax
  import opened RegexMachine

  /** The depth after `code`, started with depth `d`; None if the depth would become negative. */
  function DepthAfter(code: seq<Instr>, d: nat): (r: Option<nat>) {
    if code == [] then Some(d)
    else if d + StackDelta(code[0]) < 0 then None
    else DepthAfter(code[1..], d + StackDelta(code[0]))
  }

  lemma {:induction false} DepthAfterConcat(a: seq<Instr>, b: seq<Instr>, d: nat)
    ensures DepthAfter(a + b, d) == if DepthAfter(a, d).Some? then DepthAfter(b, DepthAfter(a, d).value) else None
    decreases |a|
  {
    hide StackDelta;
    if a == [] {
      assert a + b == b;
    } else {
      assert (a + b)[1..] == a[1..] + b;
      if d + StackDelta(a[0]) >= 0 {
        DepthAfterConcat(a[1..], b, d + StackDelta(a[0]));
      }
    }
  }

  lemma DepthAfterOne(i: Instr, d: nat)
    ensures DepthAfter([i], d) == if d + StackDelta(i) < 0 then None else Some(d + StackDelta(i))
  {
    hide StackDelta;
    assert [i][1..] == [];
  }

  /** The scan passes over a fragment. */
  lemma {:induction false} DepthPast(bc: seq<u8>, pc: nat, code: seq<Instr>, d: nat)
    requires AtDepth(bc, pc, d) && CodeAt(bc, pc, code) && DepthAfter(code, d).Some?
    ensures AtDepth(bc, pc + Len(code), DepthAfter(code, d).value)
    decreases |code|
  {
    hide Decode, StackDelta, AtDepth, Size;
    if code != [] {
      DepthNext(bc, pc, d, code[0]);
      DepthPast(bc, pc + Size(code[0]), code[1..], d + StackDelta(code[0]));
    }
  }

  ghost predicate Balanced(code: seq<Instr>) {
    forall d: nat :: DepthAfter(code, d) == Some(d)
  }

  lemma BalancedOne(i: Instr)
    requires StackDelta(i) == 0
    ensures Balanced([i])
  {
    forall d: nat ensures DepthAfter([i], d) == Some(d) {
      DepthAfterOne(i, d);
    }
  }

  lemma BalancedConcat(a: seq<Instr>, b: seq<Instr>)
    requires Balanced(a) && Balanced(b)
    ensures Balanced(a + b)
  {
    hide DepthAfter;
    forall d: nat ensures DepthAfter(a + b, d) == Some(d) {
      DepthAfterConcat(a, b, d);
    }
  }

  /** A push, a balanced fragment, and a pop. */
  lemma BalancedBracket(push: Instr, code: seq<Instr>, pop: Instr)
    requires StackDelta(push) == 1 && Balanced(code) && StackDelta(pop) == -1
    ensures Balanced([push] + code + [pop])
  {
    hide DepthAfter;
    forall d: nat ensures DepthAfter([push] + code + [pop], d) == Some(d) {
      DepthAfterConcat([push] + code, [pop], d);
      DepthAfterConcat([push], code, d);
      DepthAfterOne(push, d);
      assert DepthAfter(code, d + 1) == Some(d + 1);
      DepthAfterOne(pop, d + 1);
    }
  }

  lemma BalancedCharCode(back: bool, i: Instr)
    requires StackDelta(i) == 0
    ensures Balanced(CharCode(back, i))
  {
    hide Balanced;
    BalancedOne(i);
    BalancedOne(Instr.Prev);
    BalancedConcat([Instr.Prev], [i]);
    assert [Instr.Prev] + [i] == [Instr.Prev, i];
    BalancedConcat([Instr.Prev, i], [Instr.Prev]);
    assert [Instr.Prev, i] + [Instr.Prev] == [Instr.Prev, i, Instr.Prev];
  }

  lemma BalancedEmpty()
    ensures Balanced([])
  {
  }

  lemma BalancedSandwich(first: Instr, code: seq<Instr>, last: Instr)
    requires StackDelta(first) == 0 && Balanced(code) && StackDelta(last) == 0
    ensures Balanced([first] + code + [last])
  {
    hide Balanced;
    BalancedOne(first);
    BalancedOne(last);
    BalancedConcat([first], code);
    BalancedConcat([first] + code, [last]);
  }

  lemma BalancedBody(atom: seq<Instr>)
    requires Balanced(atom)
    ensures Balanced(LoopBody(atom))
  {
    hide Balanced, NeedCheckAdvance;
    BalancedBracket(Instr.PushCharPos, atom, Instr.CheckAdvance);
  }

  lemma BalancedStar(body: seq<Instr>, greedy: bool)
    requires Balanced(body)
    ensures Balanced(StarCode(body, greedy)) && Balanced(OptionCode(body, greedy))
  {
    hide Balanced, Len, ToU32, Behind;
    BalancedSandwich(Instr.Split(greedy, ToU32(Len(body) + 5)), body, Instr.Goto(Behind(Len(body) + 10)));
    BalancedOne(Instr.Split(greedy, ToU32(Len(body))));
    BalancedConcat([Instr.Split(greedy, ToU32(Len(body)))], body);
  }

  lemma BalancedCounted(body: seq<Instr>, k: u32, greedy: bool)
    requires Balanced(body)
    ensures Balanced(UpToCode(body, k, greedy)) && Balanced(TimesCode(body, k))
  {
    hide Balanced, Len, ToU32, Behind;
    var split := Instr.Split(greedy, ToU32(Len(body) + 5));
    var loop := Instr.Loop(Behind(Len(body) + 10));
    BalancedSandwich(split, body, loop);
    BalancedBracket(Instr.PushI32(k), [split] + body + [loop], Instr.Drop);
    assert UpToCode(body, k, greedy) == [Instr.PushI32(k)] + ([split] + body + [loop]) + [Instr.Drop];
    var loop1 := Instr.Loop(Behind(Len(body) + 5));
    BalancedOne(loop1);
    BalancedConcat(body, [loop1]);
    BalancedBracket(Instr.PushI32(k), body + [loop1], Instr.Drop);
    assert TimesCode(body, k) == [Instr.PushI32(k)] + (body + [loop1]) + [Instr.Drop];
  }

  lemma BalancedQuant(atom: seq<Instr>, min: nat, max: nat, greedy: bool, first: nat, groups: nat)
    requires min <= max <= INFINITE && first + groups <= 0x100 && Balanced(atom)
    ensures Balanced(QuantCode(atom, min, max, greedy, first, groups))
  {
    hide Balanced, NeedCheckAdvance, SimpleLen, Len, ToU32, Behind, LoopBody, StarCode, OptionCode, UpToCode, TimesCode;
    var body := LoopBody(atom);
    BalancedBody(atom);
    BalancedStar(body, greedy);
    BalancedCounted(body, max, greedy);
    BalancedCounted(body, max - min, greedy);
    BalancedCounted(atom, min, greedy);
    BalancedEmpty();
    BalancedSandwich(Instr.SimpleGreedy(ToU32(Len(atom) + 1), min, max, ToU32(SimpleLen(atom))), atom, Instr.Match);
    BalancedOne(Instr.Split(!greedy, Behind(Len(atom) + 5)));
    BalancedConcat(atom, [Instr.Split(!greedy, Behind(Len(atom) + 5))]);
    if groups > 0 {
      BalancedOne(Instr.SaveReset(first, first + groups - 1));
    }
    var prefix := if min == 0 then (if groups > 0 then [Instr.SaveReset(first, first + groups - 1)] else [])
                  else if min == 1 then atom else TimesCode(atom, min);
    var tail := if max == INFINITE then StarCode(body, greedy)
                else if min == 0 && max == 0 then []
                else if min == 0 && max == 1 then OptionCode(body, greedy)
                else if max > min then UpToCode(body, max - min, greedy) else [];
    BalancedConcat(prefix, tail);
  }

  /** Every emitted fragment is balanced. */
  lemma {:induction false} CodeBalanced(f: Flags, n: Node, back: bool, cc: nat)
    requires ValidNode(n) && cc + Groups(n) <= 0x100
    ensures Balanced(Code(f, n, back, cc))
  {
    hide Balanced, QuantCode, ClassInstr, LiteralInstr, Len, ToU32, Behind, CharCode, StackDelta;
    match n
    case Cat(a, b) =>
      CodeBalanced(f, a, back, cc);
      CodeBalanced(f, b, back, cc + Groups(a));
      BalancedConcat(Code(f, a, back, cc), Code(f, b, back, cc + Groups(a)));
      BalancedConcat(Code(f, b, back, cc + Groups(a)), Code(f, a, back, cc));
    case Alt(a, b) =>
      var ca, cb := Code(f, a, back, cc), Code(f, b, back, cc + Groups(a));
      CodeBalanced(f, a, back, cc);
      CodeBalanced(f, b, back, cc + Groups(a));
      NoDelta(Instr.Split(true, ToU32(Len(ca) + 5)));
      NoDelta(Instr.Goto(ToU32(Len(cb))));
      BalancedSandwich(Instr.Split(true, ToU32(Len(ca) + 5)), ca, Instr.Goto(ToU32(Len(cb))));
      BalancedConcat([Instr.Split(true, ToU32(Len(ca) + 5))] + ca + [Instr.Goto(ToU32(Len(cb)))], cb);
    case Capture(a) =>
      CodeBalanced(f, a, back, cc + 1);
      NoDelta(Instr.Save(back, cc));
      NoDelta(Instr.Save(!back, cc));
      BalancedSandwich(Instr.Save(back, cc), Code(f, a, back, cc + 1), Instr.Save(!back, cc));
    case Look(a, neg, behind) =>
      var ca := Code(f, a, behind, cc);
      CodeBalanced(f, a, behind, cc);
      NoDelta(Instr.Look(neg, ToU32(Len(ca) + 1)));
      NoDelta(Instr.Match);
      BalancedSandwich(Instr.Look(neg, ToU32(Len(ca) + 1)), ca, Instr.Match);
    case Quant(a, min, max, greedy) =>
      CodeBalanced(f, a, back, cc);
      BalancedQuant(Code(f, a, back, cc), min, max, greedy, cc, Groups(a));
    case _ =>
      LeafBalanced(f, n, back, cc);
  }

  lemma NoDelta(i: Instr)
    requires !i.PushI32? && !i.PushCharPos? && !i.Drop? && !i.CheckAdvance?
    ensures StackDelta(i) == 0
  {
  }

  lemma LeafBalanced(f: Flags, n: Node, back: bool, cc: nat)
    requires ValidNode(n) && cc + Groups(n) <= 0x100
    requires !n.Cat? && !n.Alt? && !n.Capture? && !n.Look? && !n.Quant?
    ensures Balanced(Code(f, n, back, cc))
  {
    hide Balanced, CharCode;
    BalancedEmpty();
    match n
    case Char(c) => BalancedCharCode(back, LiteralInstr(Fold(f, c)));
    case AnyChar => BalancedCharCode(back, if f.dotAll then Instr.Any else Instr.Dot);
    case Class(points) => BalancedCharCode(back, ClassInstr(points));
    case LineStart => BalancedOne(Instr.LineStart);
    case LineEnd => BalancedOne(Instr.LineEnd);
    case WordBoundary(negated) => BalancedOne(Instr.WordBoundary(negated));
    case BackRef(idx) => BalancedOne(Instr.BackRef(back, idx));
    case Empty =>
  }

  /** The maximum the scan of the code reaches, started with `d` and the maximum `max` so far. */
  function MaxDepth(code: seq<Instr>, d: int, max: nat): (r: nat)
    ensures r >= max
    decreases |code|
  {
    if code == [] then max else
    var d1 := d + StackDelta(code[0]);
    MaxDepth(code[1..], d1, if d1 > max then d1 else max)
  }

  /** No address of the code has a greater depth than that maximum. */
  lemma {:induction false} DepthBelowMax(bc: seq<u8>, from: nat, d: nat, code: seq<Instr>, max: nat, pc: nat, dp: nat)
    requires CodeAt(bc, from, code) && d <= max
    requires Scan(bc, from, d, pc) == Some(dp) && pc <= from + Len(code)
    ensures dp <= MaxDepth(code, d, max)
    decreases |code|
  {
    hide Decode, StackDelta;
    if from < pc {
      var d1 := d + StackDelta(code[0]);
      DepthBelowMax(bc, from + Size(code[0]), d1, code[1..], if d1 > max then d1 else max, pc, dp);
    }
  }

  /** Some address has it, unless it is the maximum the scan was started with. */
  lemma {:induction false} MaxDepthReached(bc: seq<u8>, from: nat, d: nat, code: seq<Instr>, max: nat) returns (pc: nat)
    requires CodeAt(bc, from, code) && d <= max && Scan(bc, from, d, from + Len(code)).Some?
    ensures from <= pc <= from + Len(code)
    ensures MaxDepth(code, d, max) == max || Scan(bc, from, d, pc) == Some(MaxDepth(code, d, max))
    decreases |code|
  {
    hide Decode, StackDelta;
    pc := from;
    if code != [] {
      assert Len(code) == Size(code[0]) + Len(code[1..]) && Size(code[0]) > 0;
      var d1, next := d + StackDelta(code[0]), from + Size(code[0]);
      pc := MaxDepthReached(bc, next, d1, code[1..], if d1 > max then d1 else max);
      if MaxDepth(code, d, max) == d1 {
        pc := next;
      }
    }
  }
}
