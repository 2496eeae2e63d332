/** Where emitted code leads: every jump lands on an instruction of its fragment, or behind it, at the stack depth it
    left with; the groups it saves exist and its loops have counters. */
module RegexJumps {
  import opened Bytes
  import opened RegexCode
  import opened RegexText
  import opened RegexSyntax
  import opened RegexReference
  import opened RegexMachine
  import opened RegexDepth
  import opened RegexLoops
  import opened RegexGreedy
  import opened RegexTheorem

  // ---- where the instructions of a fragment lead ----

  ghost predicate SameDepth(a: seq<Instr>, b: seq<Instr>) {
    forall d: nat :: DepthAfter(a, d) == DepthAfter(b, d)
  }

  /** A jump by `off` from behind instruction `k` arrives at instruction `j`, at the depth it left with. */
  ghost predicate LandsAt(code: seq<Instr>, k: nat, off: u32, j: nat)
    requires k < |code|
  {
    && j <= |code| && Len(code[..j]) == Len(code[..k + 1]) + ToI32(off)
    && SameDepth(code[..j], code[..k + 1])
  }

  ghost predicate Lands(code: seq<Instr>, k: nat, off: u32)
    requires k < |code|
  {
    exists j: nat :: LandsAt(code, k, off, j)
  }

  /** Instruction `k` is followed by an atom of `n` simple instructions and a `match`. */
  ghost predicate AtomAt(code: seq<Instr>, k: nat, n: nat)
    requires k < |code| && code[k].SimpleGreedy?
  {
    && k + 1 + n < |code| && code[k + 1 + n] == Instr.Match
    && SimpleLen(code[k + 1..k + 1 + n]) == code[k].len > 0
  }

  /** The jumps of instruction `k` land in the fragment, its groups exist, its atom is simple. */
  ghost predicate Sound(code: seq<Instr>, k: nat, groups: nat)
    requires k < |code|
  {
    match code[k]
    case Goto(off) => Lands(code, k, off)
    case Split(_, off) => Lands(code, k, off)
    case Look(_, off) => Lands(code, k, off)
    case Loop(off) => Lands(code, k, off)
    case Save(_, idx) => idx < groups
    case SaveReset(_, last) => last < groups
    case SimpleGreedy(next, _, _, _) => Lands(code, k, next) && exists n: nat :: AtomAt(code, k, n)
    case _ => true
  }

  ghost predicate AllSound(code: seq<Instr>, groups: nat) {
    forall k: nat | k < |code| :: Sound(code, k, groups)
  }

  // ---- fragments inside larger ones ----

  lemma PrefixWithin(pre: seq<Instr>, code: seq<Instr>, post: seq<Instr>, j: nat)
    requires j <= |code|
    ensures (pre + code + post)[..|pre| + j] == pre + code[..j]
    ensures Len(pre + code[..j]) == Len(pre) + Len(code[..j])
  {
    hide Len;
    TakeWithin(pre, code, post, j);
    LenConcat(pre, code[..j]);
  }

  lemma TakeWithin<T>(a: seq<T>, b: seq<T>, c: seq<T>, j: nat)
    requires j <= |b|
    ensures (a + b + c)[..|a| + j] == a + b[..j]
  {
    var l, r := (a + b + c)[..|a| + j], a + b[..j];
    assert |l| == |r|;
    forall i | 0 <= i < |l|
      ensures l[i] == r[i]
    {
    }
  }

  lemma SameDepthWithin(pre: seq<Instr>, a: seq<Instr>, b: seq<Instr>)
    requires SameDepth(a, b)
    ensures SameDepth(pre + a, pre + b)
  {
    hide DepthAfter;
    forall d: nat
      ensures DepthAfter(pre + a, d) == DepthAfter(pre + b, d)
    {
      DepthAfterConcat(pre, a, d);
      DepthAfterConcat(pre, b, d);
    }
  }

  lemma LandsWithin(pre: seq<Instr>, code: seq<Instr>, post: seq<Instr>, k: nat, off: u32)
    requires k < |code| && Lands(code, k, off)
    ensures Lands(pre + code + post, |pre| + k, off)
  {
    hide Len, SameDepth;
    var j: nat :| LandsAt(code, k, off, j);
    PrefixWithin(pre, code, post, j);
    PrefixWithin(pre, code, post, k + 1);
    SameDepthWithin(pre, code[..j], code[..k + 1]);
    assert LandsAt(pre + code + post, |pre| + k, off, |pre| + j);
  }

  lemma AtomWithin(pre: seq<Instr>, code: seq<Instr>, post: seq<Instr>, k: nat, n: nat)
    requires k < |code| && code[k].SimpleGreedy? && AtomAt(code, k, n)
    ensures (pre + code + post)[|pre| + k] == code[k] && AtomAt(pre + code + post, |pre| + k, n)
  {
    hide SimpleLen;
    var all := pre + code + post;
    assert all[|pre| + k + 1..|pre| + k + 1 + n] == code[k + 1..k + 1 + n];
  }

  lemma SoundWithin(pre: seq<Instr>, code: seq<Instr>, post: seq<Instr>, k: nat, groups: nat)
    requires k < |code| && Sound(code, k, groups)
    ensures Sound(pre + code + post, |pre| + k, groups)
  {
    hide Lands, AtomAt;
    var all := pre + code + post;
    assert all[|pre| + k] == code[k];
    match code[k]
    case Goto(off) => LandsWithin(pre, code, post, k, off);
    case Split(_, off) => LandsWithin(pre, code, post, k, off);
    case Look(_, off) => LandsWithin(pre, code, post, k, off);
    case Loop(off) => LandsWithin(pre, code, post, k, off);
    case SimpleGreedy(next, _, _, _) =>
      LandsWithin(pre, code, post, k, next);
      var n: nat :| AtomAt(code, k, n);
      AtomWithin(pre, code, post, k, n);
    case _ =>
  }

  /** A sound fragment between instructions that are sound where they stand. */
  lemma SoundAround(pre: seq<Instr>, code: seq<Instr>, post: seq<Instr>, all: seq<Instr>, groups: nat)
    requires AllSound(code, groups) && all == pre + code + post
    requires forall k: nat | k < |pre| || |pre| + |code| <= k < |all| :: Sound(all, k, groups)
    ensures AllSound(all, groups)
  {
    hide Sound;
    forall k: nat | k < |all|
      ensures Sound(all, k, groups)
    {
      if |pre| <= k < |pre| + |code| {
        SoundWithin(pre, code, post, k - |pre|, groups);
      }
    }
  }

  lemma SoundConcat(a: seq<Instr>, b: seq<Instr>, groups: nat)
    requires AllSound(a, groups) && AllSound(b, groups)
    ensures AllSound(a + b, groups)
  {
    hide Sound;
    forall k: nat | k < |a + b|
      ensures Sound(a + b, k, groups)
    {
      if k < |a| {
        SoundWithin([], a, b, k, groups);
        assert [] + a + b == a + b;
      } else {
        SoundWithin(a, b, [], k - |a|, groups);
        assert a + b + [] == a + b;
      }
    }
  }

  // ---- depths and lengths of the fragments ----

  lemma SameDepthBalanced(a: seq<Instr>, b: seq<Instr>)
    requires Balanced(a) && Balanced(b)
    ensures SameDepth(a, b)
  {
    hide DepthAfter;
    assert forall d: nat :: DepthAfter(a, d) == Some(d);
    assert forall d: nat :: DepthAfter(b, d) == Some(d);
  }

  lemma LandsIntro(code: seq<Instr>, k: nat, off: u32, j: nat, at: seq<Instr>, to: seq<Instr>)
    requires k < |code| && j <= |code| && at == code[..k + 1] && to == code[..j]
    requires Len(to) == Len(at) + ToI32(off) && SameDepth(to, at)
    ensures Lands(code, k, off)
  {
    assert LandsAt(code, k, off, j);
  }

  lemma EmptySound(groups: nat)
    ensures AllSound([], groups)
  {
  }

  lemma LenOf(i: Instr)
    ensures Len([i]) == Size(i) && |[i]| == 1
  {
    assert [i][1..] == [];
  }

  /** `split; body; goto split` and `split; body; loop split` */
  lemma RoundSound(greedy: bool, body: seq<Instr>, last: Instr, groups: nat)
    requires Balanced(body) && AllSound(body, groups) && Len(body) + 10 < 0x8000_0000
    requires last == Instr.Goto(Behind(Len(body) + 10)) || last == Instr.Loop(Behind(Len(body) + 10))
    ensures AllSound([Instr.Split(greedy, ToU32(Len(body) + 5))] + body + [last], groups)
  {
    hide AllSound, Balanced, Len, ToU32, Behind, SameDepth, Lands;
    var split := Instr.Split(greedy, ToU32(Len(body) + 5));
    var code := [split] + body + [last];
    LenBracket(split, body, last);
    JumpAhead(Len(body) + 5);
    JumpBack(0, Len(body) + 10);
    BalancedSandwich(split, body, last);
    BalancedOne(split);
    BalancedEmpty();
    SameDepthBalanced(code, [split]);
    SameDepthBalanced([], code);
    LenNothing();
    LandsIntro(code, 0, split.off, |code|, [split], code);
    LandsIntro(code, |body| + 1, last.off, 0, code, []);
    SoundAround([split], body, [last], code, groups);
  }

  /** `body; loop body` and `body; split body` */
  lemma BackSound(body: seq<Instr>, last: Instr, groups: nat)
    requires Balanced(body) && AllSound(body, groups) && Len(body) + 5 < 0x8000_0000
    requires (last.Split? || last.Loop?) && last.off == Behind(Len(body) + 5)
    ensures AllSound(body + [last], groups) && Balanced(body + [last])
  {
    hide AllSound, Balanced, Len, ToU32, Behind, SameDepth, Lands;
    var code := body + [last];
    LenConcat(body, [last]);
    LenOf(last);
    JumpBack(0, Len(body) + 5);
    BalancedOne(last);
    BalancedConcat(body, [last]);
    BalancedEmpty();
    SameDepthBalanced([], code);
    LenNothing();
    LandsIntro(code, |body|, last.off, 0, code, []);
    assert [] + body + [last] == code;
    SoundAround([], body, [last], code, groups);
  }

  /** Two instructions without jumps around a fragment. */
  lemma BracketSound(first: Instr, body: seq<Instr>, last: Instr, groups: nat)
    requires AllSound(body, groups)
    requires StackDelta(first) != 0 || (first.Save? && first.idx < groups)
    requires StackDelta(last) != 0 || (last.Save? && last.idx < groups)
    ensures AllSound([first] + body + [last], groups)
  {
    hide AllSound, Lands, AtomAt;
    SoundAround([first], body, [last], [first] + body + [last], groups);
  }

  /** `split; body` */
  lemma OptionSound(body: seq<Instr>, greedy: bool, groups: nat)
    requires Balanced(body) && AllSound(body, groups) && Len(OptionCode(body, greedy)) < 0x8000_0000
    ensures AllSound(OptionCode(body, greedy), groups)
  {
    hide AllSound, Balanced, Len, ToU32, SameDepth, Lands;
    var split := Instr.Split(greedy, ToU32(Len(body)));
    var code := [split] + body;
    LenConcat([split], body);
    LenOf(split);
    JumpAhead(Len(body));
    BalancedStar(body, greedy);
    BalancedOne(split);
    SameDepthBalanced(code, [split]);
    LandsIntro(code, 0, split.off, |code|, [split], code);
    assert code + [] == code;
    SoundAround([split], body, [], code, groups);
  }

  lemma BodySound(atom: seq<Instr>, groups: nat)
    requires AllSound(atom, groups)
    ensures AllSound(LoopBody(atom), groups)
  {
    hide AllSound, NeedCheckAdvance;
    BracketSound(Instr.PushCharPos, atom, Instr.CheckAdvance, groups);
  }

  lemma StarSound(body: seq<Instr>, greedy: bool, groups: nat)
    requires Balanced(body) && AllSound(body, groups) && Len(StarCode(body, greedy)) < 0x8000_0000
    ensures AllSound(StarCode(body, greedy), groups)
  {
    hide AllSound, Balanced, Len, ToU32, Behind;
    LenBracket(Instr.Split(greedy, ToU32(Len(body) + 5)), body, Instr.Goto(Behind(Len(body) + 10)));
    RoundSound(greedy, body, Instr.Goto(Behind(Len(body) + 10)), groups);
  }

  lemma UpToSound(body: seq<Instr>, k: u32, greedy: bool, groups: nat)
    requires Balanced(body) && AllSound(body, groups) && Len(UpToCode(body, k, greedy)) < 0x8000_0000
    ensures AllSound(UpToCode(body, k, greedy), groups)
  {
    hide AllSound, Balanced, Len, ToU32, Behind;
    var split, loop := Instr.Split(greedy, ToU32(Len(body) + 5)), Instr.Loop(Behind(Len(body) + 10));
    var inner := [split] + body + [loop];
    assert UpToCode(body, k, greedy) == [Instr.PushI32(k)] + inner + [Instr.Drop];
    LenBracket(split, body, loop);
    LenBracket(Instr.PushI32(k), inner, Instr.Drop);
    RoundSound(greedy, body, loop, groups);
    BracketSound(Instr.PushI32(k), inner, Instr.Drop, groups);
  }

  lemma TimesSound(atom: seq<Instr>, n: u32, groups: nat)
    requires Balanced(atom) && AllSound(atom, groups) && Len(TimesCode(atom, n)) < 0x8000_0000
    ensures AllSound(TimesCode(atom, n), groups)
  {
    hide AllSound, Balanced, Len, ToU32, Behind;
    var loop := Instr.Loop(Behind(Len(atom) + 5));
    var inner := atom + [loop];
    assert TimesCode(atom, n) == [Instr.PushI32(n)] + inner + [Instr.Drop];
    LenConcat(atom, [loop]);
    LenOf(loop);
    LenBracket(Instr.PushI32(n), inner, Instr.Drop);
    BackSound(atom, loop, groups);
    BracketSound(Instr.PushI32(n), inner, Instr.Drop, groups);
  }

  lemma PlusSound(atom: seq<Instr>, greedy: bool, groups: nat)
    requires Balanced(atom) && AllSound(atom, groups) && Len(PlusCode(atom, greedy)) < 0x8000_0000
    ensures AllSound(PlusCode(atom, greedy), groups)
  {
    hide AllSound, Balanced, Len, Behind;
    var split := Instr.Split(!greedy, Behind(Len(atom) + 5));
    LenConcat(atom, [split]);
    LenOf(split);
    BackSound(atom, split, groups);
  }

  lemma GreedySound(atom: seq<Instr>, min: u32, max: u32, groups: nat)
    requires Balanced(atom) && AllSound(atom, groups) && SimpleLen(atom) > 0
    requires Len(GreedyCode(atom, min, max)) < 0x8000_0000
    ensures AllSound(GreedyCode(atom, min, max), groups)
  {
    hide AllSound, Balanced, Len, ToU32, SimpleLen, Lands, SameDepth;
    var first := Instr.SimpleGreedy(ToU32(Len(atom) + 1), min, max, ToU32(SimpleLen(atom)));
    var code := [first] + atom + [Instr.Match];
    LenBracket(first, atom, Instr.Match);
    SimpleLenBelowLen(atom);
    JumpAhead(Len(atom) + 1);
    SmallU32(SimpleLen(atom));
    BalancedSandwich(first, atom, Instr.Match);
    BalancedOne(first);
    SameDepthBalanced(code, [first]);
    LandsIntro(code, 0, first.next, |code|, [first], code);
    assert code[1..1 + |atom|] == atom;
    assert AtomAt(code, 0, |atom|);
    SoundAround([first], atom, [Instr.Match], code, groups);
  }

  lemma SmallU32(x: int)
    requires 0 <= x < 0x8000_0000
    ensures ToU32(x) == x
  {
  }

  lemma AltSound(ca: seq<Instr>, cb: seq<Instr>, groups: nat)
    requires Balanced(ca) && Balanced(cb) && AllSound(ca, groups) && AllSound(cb, groups)
    requires Len(AltCode(ca, cb)) < 0x8000_0000
    ensures AllSound(AltCode(ca, cb), groups)
  {
    hide AllSound, Balanced, Len, ToU32, SameDepth, Lands;
    var split, goto := Instr.Split(true, ToU32(Len(ca) + 5)), Instr.Goto(ToU32(Len(cb)));
    var front := [split] + ca + [goto];
    var code := front + cb;
    LenBracket(split, ca, goto);
    LenConcat(front, cb);
    JumpAhead(Len(ca) + 5);
    JumpAhead(Len(cb));
    BalancedSandwich(split, ca, goto);
    BalancedConcat(front, cb);
    BalancedOne(split);
    SameDepthBalanced(front, [split]);
    SameDepthBalanced(code, front);
    LandsIntro(code, 0, split.off, |front|, [split], front);
    LandsIntro(code, |ca| + 1, goto.off, |code|, front, code);
    assert [split] + ca + ([goto] + cb) == code;
    LaterSound(front, cb, groups);
    SoundAround([split], ca, [goto] + cb, code, groups);
  }

  lemma LaterSound(front: seq<Instr>, code: seq<Instr>, groups: nat)
    requires AllSound(code, groups)
    ensures forall k: nat | |front| <= k < |front + code| :: Sound(front + code, k, groups)
  {
    hide Sound;
    forall k: nat | |front| <= k < |front + code|
      ensures Sound(front + code, k, groups)
    {
      assert front + code + [] == front + code;
      SoundWithin(front, code, [], k - |front|, groups);
    }
  }

  lemma LookSound(ca: seq<Instr>, neg: bool, groups: nat)
    requires Balanced(ca) && AllSound(ca, groups) && Len(ca) + 6 < 0x8000_0000
    ensures AllSound([Instr.Look(neg, ToU32(Len(ca) + 1))] + ca + [Instr.Match], groups)
  {
    hide AllSound, Balanced, Len, ToU32, SameDepth, Lands;
    var look := Instr.Look(neg, ToU32(Len(ca) + 1));
    var code := [look] + ca + [Instr.Match];
    LenBracket(look, ca, Instr.Match);
    JumpAhead(Len(ca) + 1);
    BalancedSandwich(look, ca, Instr.Match);
    BalancedOne(look);
    SameDepthBalanced(code, [look]);
    LandsIntro(code, 0, look.off, |code|, [look], code);
    SoundAround([look], ca, [Instr.Match], code, groups);
  }

  // ---- all emitted code ----

  /** The optional iterations of a quantifier. */
  lemma QuantTailSound(atom: seq<Instr>, k: u32, greedy: bool, groups: nat)
    requires Balanced(atom) && AllSound(atom, groups)
    ensures var body := LoopBody(atom);
      && (Len(StarCode(body, greedy)) < 0x8000_0000 ==> AllSound(StarCode(body, greedy), groups))
      && (Len(OptionCode(body, greedy)) < 0x8000_0000 ==> AllSound(OptionCode(body, greedy), groups))
      && (Len(UpToCode(body, k, greedy)) < 0x8000_0000 ==> AllSound(UpToCode(body, k, greedy), groups))
  {
    hide AllSound, Balanced, Len, LoopBody, StarCode, OptionCode, UpToCode;
    var body := LoopBody(atom);
    BodySound(atom, groups);
    BalancedBody(atom);
    if Len(StarCode(body, greedy)) < 0x8000_0000 { StarSound(body, greedy, groups); }
    if Len(OptionCode(body, greedy)) < 0x8000_0000 { OptionSound(body, greedy, groups); }
    if Len(UpToCode(body, k, greedy)) < 0x8000_0000 { UpToSound(body, k, greedy, groups); }
  }

  lemma QuantSound(atom: seq<Instr>, min: nat, max: nat, greedy: bool, first: nat, count: nat, groups: nat)
    requires min <= max <= INFINITE && first + count <= groups <= 0x100 && Balanced(atom)
    requires max > 0 ==> AllSound(atom, groups)
    requires Len(QuantCode(atom, min, max, greedy, first, count)) < 0x8000_0000
    ensures AllSound(QuantCode(atom, min, max, greedy, first, count), groups)
  {
    hide AllSound, Balanced, Len, LoopBody, StarCode, OptionCode, UpToCode, TimesCode, PlusCode, GreedyCode, SimpleLen,
      NeedCheckAdvance;
    EmptySound(groups);
    if greedy && max > 0 && SimpleLen(atom) > 0 {
      GreedySound(atom, min, max, groups);
    } else if min == 0 {
      var prefix := if count > 0 then [Instr.SaveReset(first, first + count - 1)] else [];
      if count > 0 {
        ResetSound(first, first + count - 1, groups);
      }
      var tail := if max == 0 then []
                  else if max == 1 then OptionCode(LoopBody(atom), greedy)
                  else if max == INFINITE then StarCode(LoopBody(atom), greedy)
                  else UpToCode(LoopBody(atom), max, greedy);
      LenConcat(prefix, tail);
      if max > 0 {
        QuantTailSound(atom, max, greedy, groups);
      }
      SoundConcat(prefix, tail, groups);
    } else if min == 1 && max == INFINITE && !NeedCheckAdvance(atom) {
      PlusSound(atom, greedy, groups);
    } else {
      var prefix := if min == 1 then atom else TimesCode(atom, min);
      var tail := if max == INFINITE then StarCode(LoopBody(atom), greedy)
                  else if max > min then UpToCode(LoopBody(atom), max - min, greedy)
                  else [];
      LenConcat(prefix, tail);
      if min > 1 {
        TimesSound(atom, min, groups);
      }
      QuantTailSound(atom, max - min, greedy, groups);
      SoundConcat(prefix, tail, groups);
    }
  }

  lemma ResetSound(first: u8, last: u8, groups: nat)
    requires last < groups
    ensures AllSound([Instr.SaveReset(first, last)], groups)
  {
  }

  /** The code of a quantifier that can iterate contains its atom. */
  lemma AtomFits(atom: seq<Instr>, min: nat, max: nat, greedy: bool, first: nat, count: nat)
    requires min <= max <= INFINITE && first + count <= 0x100 && max > 0
    ensures Len(atom) <= Len(QuantCode(atom, min, max, greedy, first, count))
  {
    hide Len, SimpleLen, NeedCheckAdvance, StarCode, OptionCode, UpToCode, TimesCode, PlusCode, GreedyCode, LoopBody;
    var body := LoopBody(atom);
    BodyLen(atom);
    FragmentLens(atom, body, min, max, max - min, greedy);
    var prefix := if min == 0 then (if count > 0 then [Instr.SaveReset(first, first + count - 1)] else [])
                  else if min == 1 then atom else TimesCode(atom, min);
    LenConcat(prefix, StarCode(body, greedy));
    LenConcat(prefix, OptionCode(body, greedy));
    LenConcat(prefix, UpToCode(body, max, greedy));
    LenConcat(prefix, UpToCode(body, max - min, greedy));
    LenConcat(prefix, []);
  }

  lemma BodyLen(atom: seq<Instr>)
    ensures Len(atom) <= Len(LoopBody(atom))
  {
    hide Len, NeedCheckAdvance;
    LenBracket(Instr.PushCharPos, atom, Instr.CheckAdvance);
  }

  lemma FragmentLens(atom: seq<Instr>, body: seq<Instr>, min: u32, max: u32, k: u32, greedy: bool)
    ensures Len(body) <= Len(StarCode(body, greedy)) && Len(body) <= Len(OptionCode(body, greedy))
    ensures Len(body) <= Len(UpToCode(body, max, greedy)) && Len(body) <= Len(UpToCode(body, k, greedy))
    ensures Len(atom) <= Len(TimesCode(atom, min)) && Len(atom) <= Len(PlusCode(atom, greedy))
    ensures Len(atom) <= Len(GreedyCode(atom, min, max))
  {
    hide Len, ToU32, Behind, SimpleLen;
    LenParts([Instr.Split(greedy, ToU32(Len(body) + 5))], body, [Instr.Goto(Behind(Len(body) + 10))]);
    LenParts([Instr.Split(greedy, ToU32(Len(body)))], body, []);
    assert [Instr.Split(greedy, ToU32(Len(body)))] + body + [] == OptionCode(body, greedy);
    var last := [Instr.Loop(Behind(Len(body) + 10)), Instr.Drop];
    LenParts([Instr.PushI32(max), Instr.Split(greedy, ToU32(Len(body) + 5))], body, last);
    LenParts([Instr.PushI32(k), Instr.Split(greedy, ToU32(Len(body) + 5))], body, last);
    LenParts([Instr.PushI32(min)], atom, [Instr.Loop(Behind(Len(atom) + 5)), Instr.Drop]);
    LenConcat(atom, [Instr.Split(!greedy, Behind(Len(atom) + 5))]);
    LenParts([Instr.SimpleGreedy(ToU32(Len(atom) + 1), min, max, ToU32(SimpleLen(atom)))], atom, [Instr.Match]);
  }

  lemma LenParts(a: seq<Instr>, b: seq<Instr>, c: seq<Instr>)
    ensures Len(a + b + c) == Len(a) + Len(b) + Len(c)
  {
    LenConcat(a + b, c);
    LenConcat(a, b);
  }

  /** Every jump of emitted code lands on an instruction of the same fragment or behind it, at the stack depth it left
      with; the groups it saves exist. */
  lemma {:induction false} CodeSound(f: Flags, n: Node, back: bool, cc: nat, groups: nat)
    requires ValidNode(n) && cc + Groups(n) <= groups <= 0x100 && Len(Code(f, n, back, cc)) < 0x8000_0000
    ensures AllSound(Code(f, n, back, cc), groups)
  {
    hide AllSound, Balanced, QuantCode, ClassInstr, LiteralInstr, Len, ToU32, Behind, CharCode, AltCode, StackDelta;
    match n
    case Cat(a, b) =>
      var ca, cb := Code(f, a, back, cc), Code(f, b, back, cc + Groups(a));
      LenConcat(ca, cb);
      LenConcat(cb, ca);
      CodeSound(f, a, back, cc, groups);
      CodeSound(f, b, back, cc + Groups(a), groups);
      if back {
        SoundConcat(cb, ca, groups);
      } else {
        SoundConcat(ca, cb, groups);
      }
    case Alt(a, b) =>
      var ca, cb := Code(f, a, back, cc), Code(f, b, back, cc + Groups(a));
      AltLen(ca, cb);
      CodeSound(f, a, back, cc, groups);
      CodeSound(f, b, back, cc + Groups(a), groups);
      AltCodeSound(f, a, b, back, cc, groups);
    case Capture(a) =>
      var ca := Code(f, a, back, cc + 1);
      LenBracket(Instr.Save(back, cc), ca, Instr.Save(!back, cc));
      CodeSound(f, a, back, cc + 1, groups);
      BracketSound(Instr.Save(back, cc), ca, Instr.Save(!back, cc), groups);
    case Look(a, neg, behind) =>
      var ca := Code(f, a, behind, cc);
      LenBracket(Instr.Look(neg, ToU32(Len(ca) + 1)), ca, Instr.Match);
      CodeSound(f, a, behind, cc, groups);
      LookCodeSound(f, a, neg, behind, cc, groups);
    case Quant(a, min, max, greedy) =>
      if max > 0 {
        AtomFits(Code(f, a, back, cc), min, max, greedy, cc, Groups(a));
        CodeSound(f, a, back, cc, groups);
      }
      QuantCodeSound(f, n, back, cc, groups);
    case _ =>
      LeafSound(f, n, back, cc, groups);
  }

  lemma AltCodeSound(f: Flags, a: Node, b: Node, back: bool, cc: nat, groups: nat)
    requires ValidNode(a) && ValidNode(b) && cc + Groups(a) + Groups(b) <= 0x100
    requires var ca, cb := Code(f, a, back, cc), Code(f, b, back, cc + Groups(a));
      AllSound(ca, groups) && AllSound(cb, groups) && Len(AltCode(ca, cb)) < 0x8000_0000
    ensures AllSound(AltCode(Code(f, a, back, cc), Code(f, b, back, cc + Groups(a))), groups)
  {
    hide AllSound, Balanced, Len, AltCode, Code, Groups, ValidNode;
    CodeBalanced(f, a, back, cc);
    CodeBalanced(f, b, back, cc + Groups(a));
    AltSound(Code(f, a, back, cc), Code(f, b, back, cc + Groups(a)), groups);
  }

  lemma LookCodeSound(f: Flags, a: Node, neg: bool, behind: bool, cc: nat, groups: nat)
    requires ValidNode(a) && cc + Groups(a) <= 0x100
    requires AllSound(Code(f, a, behind, cc), groups) && Len(Code(f, a, behind, cc)) + 6 < 0x8000_0000
    ensures var ca := Code(f, a, behind, cc);
      AllSound([Instr.Look(neg, ToU32(Len(ca) + 1))] + ca + [Instr.Match], groups)
  {
    hide AllSound, Balanced, Len, Code, Groups, ValidNode;
    CodeBalanced(f, a, behind, cc);
    LookSound(Code(f, a, behind, cc), neg, groups);
  }

  lemma QuantCodeSound(f: Flags, n: Node, back: bool, cc: nat, groups: nat)
    requires n.Quant? && ValidNode(n) && ValidNode(n.atom) && n.min <= n.max <= INFINITE
    requires cc + Groups(n.atom) <= groups <= 0x100 && (n.max > 0 ==> AllSound(Code(f, n.atom, back, cc), groups))
    requires Len(QuantCode(Code(f, n.atom, back, cc), n.min, n.max, n.greedy, cc, Groups(n.atom))) < 0x8000_0000
    ensures AllSound(QuantCode(Code(f, n.atom, back, cc), n.min, n.max, n.greedy, cc, Groups(n.atom)), groups)
  {
    hide AllSound, Balanced, Len, QuantCode, Code, Groups, ValidNode;
    CodeBalanced(f, n.atom, back, cc);
    QuantSound(Code(f, n.atom, back, cc), n.min, n.max, n.greedy, cc, Groups(n.atom), groups);
  }

  lemma AltLen(ca: seq<Instr>, cb: seq<Instr>)
    ensures Len(AltCode(ca, cb)) == 10 + Len(ca) + Len(cb)
  {
    hide Len, ToU32;
    var split, goto := Instr.Split(true, ToU32(Len(ca) + 5)), Instr.Goto(ToU32(Len(cb)));
    LenBracket(split, ca, goto);
    LenConcat([split] + ca + [goto], cb);
  }

  lemma LeafSound(f: Flags, n: Node, back: bool, cc: nat, groups: nat)
    requires ValidNode(n) && cc + Groups(n) <= 0x100
    requires !n.Cat? && !n.Alt? && !n.Capture? && !n.Look? && !n.Quant?
    ensures AllSound(Code(f, n, back, cc), groups)
  {
    hide Lands, AtomAt;
  }

  // ---- loop counters ----

  /** At the `loop` instructions of the fragment there is a counter on the stack. */
  ghost predicate Counted(code: seq<Instr>, k: nat)
    requires k < |code|
  {
    code[k].Loop? ==> forall d: nat :: DepthAfter(code[..k], d).Some? ==> DepthAfter(code[..k], d).value >= 1
  }

  ghost predicate AllCounted(code: seq<Instr>) {
    forall k: nat | k < |code| :: Counted(code, k)
  }

  lemma CountedWithin(pre: seq<Instr>, code: seq<Instr>, post: seq<Instr>, k: nat)
    requires k < |code| && Counted(code, k)
    ensures Counted(pre + code + post, |pre| + k)
  {
    hide DepthAfter, Len;
    PrefixWithin(pre, code, post, k);
    forall d: nat
      ensures DepthAfter(pre + code[..k], d).Some? && code[k].Loop? ==> DepthAfter(pre + code[..k], d).value >= 1
    {
      DepthAfterConcat(pre, code[..k], d);
    }
  }

  lemma CountedConcat(a: seq<Instr>, b: seq<Instr>)
    requires AllCounted(a) && AllCounted(b)
    ensures AllCounted(a + b)
  {
    hide Counted;
    forall k: nat | k < |a + b|
      ensures Counted(a + b, k)
    {
      if k < |a| {
        CountedWithin([], a, b, k);
        assert [] + a + b == a + b;
      } else {
        CountedWithin(a, b, [], k - |a|);
        assert a + b + [] == a + b;
      }
    }
  }

  lemma NoLoops(code: seq<Instr>)
    requires forall k :: 0 <= k < |code| ==> !code[k].Loop?
    ensures AllCounted(code)
  {
  }

  /** A fragment between instructions that are not `loop`. */
  lemma CountedBetween(pre: seq<Instr>, code: seq<Instr>, post: seq<Instr>)
    requires AllCounted(code)
    requires forall k :: 0 <= k < |pre| ==> !pre[k].Loop?
    requires forall k :: 0 <= k < |post| ==> !post[k].Loop?
    ensures AllCounted(pre + code + post)
  {
    hide AllCounted;
    NoLoops(pre);
    NoLoops(post);
    CountedConcat(pre, code);
    CountedConcat(pre + code, post);
  }

  /** `push; inner; loop; drop`, where `inner` keeps the depth. */
  lemma CountedLoop(push: Instr, inner: seq<Instr>, loop: Instr)
    requires push.PushI32? && loop.Loop? && Balanced(inner) && AllCounted(inner)
    ensures AllCounted([push] + inner + [loop, Instr.Drop])
  {
    hide DepthAfter;
    var code := [push] + inner + [loop, Instr.Drop];
    forall k: nat | k < |code|
      ensures Counted(code, k)
    {
      if 1 <= k < 1 + |inner| {
        CountedWithin([push], inner, [loop, Instr.Drop], k - 1);
      } else if k == 1 + |inner| {
        assert code[..k] == [push] + inner;
        forall d: nat
          ensures DepthAfter([push] + inner, d) == Some(d + 1)
        {
          DepthAfterConcat([push], inner, d);
          DepthAfterOne(push, d);
          assert DepthAfter(inner, d + 1) == Some(d + 1);
        }
      }
    }
  }

  lemma UpToCounted(body: seq<Instr>, k: u32, greedy: bool)
    requires Balanced(body) && AllCounted(body)
    ensures AllCounted(UpToCode(body, k, greedy))
  {
    hide Balanced, AllCounted, Len, ToU32, Behind;
    var split, loop := Instr.Split(greedy, ToU32(Len(body) + 5)), Instr.Loop(Behind(Len(body) + 10));
    NoLoops([split]);
    CountedConcat([split], body);
    BalancedOne(split);
    BalancedConcat([split], body);
    CountedLoop(Instr.PushI32(k), [split] + body, loop);
    assert UpToCode(body, k, greedy) == [Instr.PushI32(k)] + ([split] + body) + [loop, Instr.Drop];
  }

  lemma QuantCounted(atom: seq<Instr>, min: nat, max: nat, greedy: bool, first: nat, count: nat)
    requires min <= max <= INFINITE && first + count <= 0x100 && Balanced(atom) && AllCounted(atom)
    ensures AllCounted(QuantCode(atom, min, max, greedy, first, count))
  {
    hide AllCounted, Balanced, Len, ToU32, Behind, SimpleLen, NeedCheckAdvance, UpToCode;
    var body := LoopBody(atom);
    BalancedBody(atom);
    CountedBetween([Instr.PushCharPos], atom, [Instr.CheckAdvance]);
    CountedBetween([Instr.SimpleGreedy(ToU32(Len(atom) + 1), min, max, ToU32(SimpleLen(atom)))], atom, [Instr.Match]);
    CountedBetween([], atom, [Instr.Split(!greedy, Behind(Len(atom) + 5))]);
    assert [] + atom + [Instr.Split(!greedy, Behind(Len(atom) + 5))] == PlusCode(atom, greedy);
    CountedBetween([Instr.Split(greedy, ToU32(Len(body) + 5))], body, [Instr.Goto(Behind(Len(body) + 10))]);
    CountedBetween([Instr.Split(greedy, ToU32(Len(body)))], body, []);
    assert [Instr.Split(greedy, ToU32(Len(body)))] + body + [] == OptionCode(body, greedy);
    UpToCounted(body, max, greedy);
    UpToCounted(body, max - min, greedy);
    CountedLoop(Instr.PushI32(min), atom, Instr.Loop(Behind(Len(atom) + 5)));
    NoLoops([]);
    if count > 0 {
      NoLoops([Instr.SaveReset(first, first + count - 1)]);
    }
    var prefix := if min == 0 then (if count > 0 then [Instr.SaveReset(first, first + count - 1)] else [])
                  else if min == 1 then atom else TimesCode(atom, min);
    var tail := if max == INFINITE then StarCode(body, greedy)
                else if min == 0 && max == 0 then []
                else if min == 0 && max == 1 then OptionCode(body, greedy)
                else if max > min then UpToCode(body, max - min, greedy) else [];
    CountedConcat(prefix, tail);
  }

  /** Every emitted `loop` has its counter. */
  lemma {:induction false} CodeCounted(f: Flags, n: Node, back: bool, cc: nat)
    requires ValidNode(n) && cc + Groups(n) <= 0x100
    ensures AllCounted(Code(f, n, back, cc))
  {
    hide AllCounted, Balanced, QuantCode, ClassInstr, LiteralInstr, Len, ToU32, Behind, CharCode;
    match n
    case Cat(a, b) =>
      CodeCounted(f, a, back, cc);
      CodeCounted(f, b, back, cc + Groups(a));
      CountedConcat(Code(f, a, back, cc), Code(f, b, back, cc + Groups(a)));
      CountedConcat(Code(f, b, back, cc + Groups(a)), Code(f, a, back, cc));
    case Alt(a, b) =>
      var ca, cb := Code(f, a, back, cc), Code(f, b, back, cc + Groups(a));
      CodeCounted(f, a, back, cc);
      CodeCounted(f, b, back, cc + Groups(a));
      CountedBetween([Instr.Split(true, ToU32(Len(ca) + 5))], ca, [Instr.Goto(ToU32(Len(cb)))]);
      CountedConcat([Instr.Split(true, ToU32(Len(ca) + 5))] + ca + [Instr.Goto(ToU32(Len(cb)))], cb);
    case Capture(a) =>
      CodeCounted(f, a, back, cc + 1);
      CountedBetween([Instr.Save(back, cc)], Code(f, a, back, cc + 1), [Instr.Save(!back, cc)]);
    case Look(a, neg, behind) =>
      var ca := Code(f, a, behind, cc);
      CodeCounted(f, a, behind, cc);
      CountedBetween([Instr.Look(neg, ToU32(Len(ca) + 1))], ca, [Instr.Match]);
    case Quant(a, min, max, greedy) =>
      CodeBalanced(f, a, back, cc);
      CodeCounted(f, a, back, cc);
      QuantCounted(Code(f, a, back, cc), min, max, greedy, cc, Groups(a));
    case _ =>
      LeafCounted(f, n, back, cc);
  }

  lemma LeafCounted(f: Flags, n: Node, back: bool, cc: nat)
    requires ValidNode(n) && cc + Groups(n) <= 0x100
    requires !n.Cat? && !n.Alt? && !n.Capture? && !n.Look? && !n.Quant?
    ensures AllCounted(Code(f, n, back, cc))
  {
    NoLoops(Code(f, n, back, cc));
  }
}
