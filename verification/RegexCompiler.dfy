/** The compiler: it appends to, shifts and patches a byte buffer. */
module RegexCompiler {
  import opened Bytes
  import opened RegexCode
  import opened RegexSyntax
  import opened RegexMachine
  import opened RegexDepth
  import opened RegexTheorem
  import opened RegexScans
  import opened RegexProgram
  import opened RegexText
  import opened CharSets

  const CAPTURE_COUNT_MAX: nat := 255

  datatype CompileError = TooManyCaptures | TooManyRanges | TooManyImbricatedQuantifiers

  /** The byte code with the two counts of its header, or an error message. */
  datatype CompileResult =
    | Success(captureCount: nat, stackSize: nat, code: seq<u8>)
    | Failure(error: CompileError)

  lemma AssembleOne(i: Instr)
    ensures Assemble([i]) == Encode(i)
  {
    hide Encode;
    assert [i][1..] == [];
    assert Encode(i) + [] == Encode(i);
  }

  lemma AssembleThree(a: seq<Instr>, b: seq<Instr>, c: seq<Instr>)
    ensures Assemble(a + b + c) == Assemble(a) + Assemble(b) + Assemble(c)
  {
    AssembleConcat(a + b, c);
    AssembleConcat(a, b);
  }

  /** Bytes assembled from well-formed code decode to it. */
  lemma SelfCode(code: seq<Instr>)
    requires AllWellFormed(code)
    ensures CodeAt(Assemble(code), 0, code) && |Assemble(code)| == Len(code)
  {
    hide Assemble, Len;
    assert Assemble(code)[0..0 + Len(code)] == Assemble(code);
    AssembledCodeAt(Assemble(code), 0, code);
  }

  /** The bytes of the instructions the compiler writes field by field. */
  lemma EncodingOf(i: Instr)
    ensures i.Goto? ==> Encode(i) == [7] + PutU32(i.off)
    ensures i.Split? ==> Encode(i) == [8 + Bit(i.nextFirst)] + PutU32(i.off)
    ensures i.Loop? ==> Encode(i) == [14] + PutU32(i.off)
    ensures i.PushI32? ==> Encode(i) == [15] + PutU32(i.v)
    ensures i.Look? ==> Encode(i) == [23 + Bit(i.neg)] + PutU32(i.off)
    ensures i.Drop? ==> Encode(i) == [16]
    ensures i.Match? ==> Encode(i) == [10]
    ensures i.PushCharPos? ==> Encode(i) == [25]
    ensures i.CheckAdvance? ==> Encode(i) == [26]
    ensures i.SaveReset? ==> Encode(i) == [13, i.first, i.last]
  {
  }

  /** Appending an instruction. */
  lemma Snoc(prefix: seq<u8>, code: seq<Instr>, i: Instr)
    ensures prefix + Assemble(code) + Encode(i) == prefix + Assemble(code + [i])
  {
    hide Assemble, Encode;
    AssembleConcat(code, [i]);
    AssembleOne(i);
    assert prefix + Assemble(code) + Encode(i) == prefix + (Assemble(code) + Encode(i));
  }

  /** The push of the position, if it is needed. */
  ghost function Mark(check: bool): (r: seq<Instr>) {
    if check then [Instr.PushCharPos] else []
  }

  lemma MarkedBytes(prefix: seq<u8>, check: bool, gap: seq<u8>, code: seq<Instr>)
    requires gap == []
    ensures (if check then prefix + [25] + gap else prefix + gap) + Assemble(code) == prefix + Assemble(Mark(check) + code)
  {
    hide Assemble, Encode;
    assert prefix + [] == prefix && prefix + [25] + [] == prefix + [25];
    if check {
      EncodingOf(Instr.PushCharPos);
      Cons(prefix, Instr.PushCharPos, code);
    } else {
      assert [] + code == code;
    }
  }

  /** Inserting an instruction before a fragment. */
  lemma Cons(prefix: seq<u8>, i: Instr, code: seq<Instr>)
    ensures prefix + Encode(i) + Assemble(code) == prefix + Assemble([i] + code)
  {
    hide Assemble, Encode;
    AssembleConcat([i], code);
    AssembleOne(i);
    assert prefix + Encode(i) + Assemble(code) == prefix + (Encode(i) + Assemble(code));
  }

  class Compiler {
    var byteCode: seq<u8>
    var captureCount: nat
    const flags: Flags

    constructor (flags: Flags)
      ensures byteCode == [] && captureCount == 1 && this.flags == flags
    {
      this.flags := flags;
      byteCode := [];
      captureCount := 1;
    }

    // ---- the buffer ----

    method Put(bytes: seq<u8>)
      modifies this`byteCode
      ensures byteCode == old(byteCode) + bytes
    {
      byteCode := byteCode + bytes;
    }

    method EmitOp(op: u8)
      modifies this`byteCode
      ensures byteCode == old(byteCode) + [op]
    {
      Put([op]);
    }

    /** Returns the offset of the operand. */
    method EmitOpU32(op: u8, val: u32) returns (pos: nat)
      modifies this`byteCode
      ensures byteCode == old(byteCode) + [op] + PutU32(val) && pos == |old(byteCode)| + 1
    {
      Put([op]);
      pos := |byteCode|;
      Put(PutU32(val));
    }

    /** Emit a jump to the absolute address `val`. */
    method EmitGoto(op: u8, val: nat)
      modifies this`byteCode
      ensures byteCode == old(byteCode) + [op] + PutU32(ToU32(val - (|old(byteCode)| + 5)))
    {
      Put([op]);
      var pos := |byteCode|;
      Put(PutU32(ToU32(val - (pos + 4))));
    }

    /** Make room for `len` bytes at `pos`; what the gap holds is not specified. */
    method Insert(pos: nat, len: nat) returns (ghost gap: seq<u8>)
      requires pos <= |byteCode|
      modifies this`byteCode
      ensures |gap| == len && byteCode == old(byteCode)[..pos] + gap + old(byteCode)[pos..]
    {
      var filler: seq<u8> := seq(len, _ => 0);
      gap := filler;
      byteCode := byteCode[..pos] + filler + byteCode[pos..];
    }

    /** Overwrite the first bytes of the gap that lies between `before` and `after`; returns what is left of it. */
    method Fill(pos: nat, bytes: seq<u8>, ghost before: seq<u8>, ghost gap: seq<u8>, ghost after: seq<u8>)
      returns (ghost left: seq<u8>)
      requires byteCode == before + gap + after && pos == |before| && |bytes| <= |gap|
      modifies this`byteCode
      ensures byteCode == before + bytes + left + after && |left| == |gap| - |bytes|
    {
      left := gap[|bytes|..];
      assert byteCode[..pos] == before;
      assert byteCode[pos + |bytes|..] == left + after;
      byteCode := byteCode[..pos] + bytes + byteCode[pos + |bytes|..];
    }

    /** Fill in an instruction with a 32-bit operand. */
    method FillU32(pos: nat, op: u8, val: u32, ghost i: Instr, ghost before: seq<u8>, ghost gap: seq<u8>, ghost after: seq<u8>)
      returns (ghost left: seq<u8>)
      requires byteCode == before + gap + after && pos == |before| && 5 <= |gap|
      requires Encode(i) == [op] + PutU32(val)
      modifies this`byteCode
      ensures byteCode == before + Encode(i) + left + after && |left| == |gap| - 5
    {
      hide Encode, PutU32;
      left := Fill(pos, [op], before, gap, after);
      left := Fill(pos + 1, PutU32(val), before + [op], left, after);
      assert before + [op] + PutU32(val) == before + ([op] + PutU32(val));
    }

    /** Insert the instruction `op val` before the bytes from `pos` on. */
    method InsertU32(pos: nat, op: u8, val: u32)
      requires pos <= |byteCode|
      modifies this`byteCode
      ensures byteCode == old(byteCode)[..pos] + ([op] + PutU32(val)) + old(byteCode)[pos..]
    {
      ghost var before, after := byteCode[..pos], byteCode[pos..];
      ghost var gap := Insert(pos, 5);
      gap := Fill(pos, [op], before, gap, after);
      gap := Fill(pos + 1, PutU32(val), before + [op], gap, after);
      assert gap == [];
      assert before + [op] + PutU32(val) + [] + after == before + ([op] + PutU32(val)) + after;
    }

    /** Append an instruction without operands. */
    method AppendOp(op: u8, ghost i: Instr, ghost prefix: seq<u8>, ghost code: seq<Instr>)
      requires byteCode == prefix + Assemble(code) && Encode(i) == [op]
      modifies this`byteCode
      ensures byteCode == prefix + Assemble(code + [i])
    {
      hide Assemble, Encode;
      EmitOp(op);
      Snoc(prefix, code, i);
    }

    method AppendU32(op: u8, val: u32, ghost i: Instr, ghost prefix: seq<u8>, ghost code: seq<Instr>) returns (pos: nat)
      requires byteCode == prefix + Assemble(code) && Encode(i) == [op] + PutU32(val)
      modifies this`byteCode
      ensures byteCode == prefix + Assemble(code + [i]) && pos == |old(byteCode)| + 1
    {
      hide Assemble, Encode, PutU32;
      pos := EmitOpU32(op, val);
      assert old(byteCode) + [op] + PutU32(val) == old(byteCode) + ([op] + PutU32(val));
      Snoc(prefix, code, i);
    }

    /** Append a jump back over `back` bytes, counted to the end of the jump, to the address `val`. */
    method AppendBack(op: u8, val: nat, ghost back: nat, ghost i: Instr, ghost prefix: seq<u8>, ghost code: seq<Instr>)
      requires byteCode == prefix + Assemble(code) && Encode(i) == [op] + PutU32(Behind(back))
      requires |byteCode| + 5 == val + back
      modifies this`byteCode
      ensures byteCode == prefix + Assemble(code + [i])
    {
      hide Assemble, Encode, PutU32;
      EmitGoto(op, val);
      assert ToU32(val - (|old(byteCode)| + 5)) == Behind(back);
      assert old(byteCode) + [op] + PutU32(Behind(back)) == old(byteCode) + ([op] + PutU32(Behind(back)));
      Snoc(prefix, code, i);
    }

    /** Insert `split off`, and the push of the position if it is needed, before a fragment. */
    method InsertSplit(start: nat, greedy: bool, off: u32, check: bool, ghost prefix: seq<u8>, ghost code: seq<Instr>)
      requires byteCode == prefix + Assemble(code) && start == |prefix|
      modifies this`byteCode
      ensures byteCode == prefix + Assemble([Instr.Split(greedy, off)] + (Mark(check) + code))
    {
      hide Assemble, Encode, PutU32;
      ghost var split, after := Instr.Split(greedy, off), Assemble(code);
      assert byteCode[..start] == prefix && byteCode[start..] == after;
      ghost var gap := Insert(start, 5 + if check then 1 else 0);
      EncodingOf(split);
      gap := FillU32(start, 8 + Bit(greedy), off, split, prefix, gap, after);
      if check {
        gap := Fill(start + 5, [25], prefix + Encode(split), gap, after);
      }
      MarkedBytes(prefix + Encode(split), check, gap, code);
      Cons(prefix, split, Mark(check) + code);
    }

    // ---- quantifiers ----

    method EmitSimpleGreedy(start: nat, min: u32, max: u32, len: u32, ghost prefix: seq<u8>, ghost atom: seq<Instr>)
      requires byteCode == prefix + Assemble(atom) && start == |prefix| && len == ToU32(SimpleLen(atom))
      modifies this`byteCode
      ensures byteCode == prefix + Assemble(GreedyCode(atom, min, max))
    {
      hide Assemble, SimpleLen, Len, Encode, ToU32, PutU32;
      ghost var after := Assemble(atom) + [10];
      EmitOp(10);
      assert byteCode == prefix + after;
      assert byteCode[..start] == prefix && byteCode[start..] == after;
      ghost var gap := Insert(start, 17);
      var next := |byteCode| - start - 17;
      var pos := start;
      gap := Fill(pos, [28], prefix, gap, after);
      pos := pos + 1;
      gap := Fill(pos, PutU32(ToU32(next)), prefix + [28], gap, after);
      pos := pos + 4;
      gap := Fill(pos, PutU32(min), prefix + [28] + PutU32(ToU32(next)), gap, after);
      pos := pos + 4;
      gap := Fill(pos, PutU32(max), prefix + [28] + PutU32(ToU32(next)) + PutU32(min), gap, after);
      pos := pos + 4;
      gap := Fill(pos, PutU32(len), prefix + [28] + PutU32(ToU32(next)) + PutU32(min) + PutU32(max), gap, after);
      assert gap == [];
      GreedyBytes(prefix, atom, min, max);
    }

    /** The reset of the atom's groups, before the optional iterations. Returns where these start. */
    method InsertReset(start: nat, first: nat, ghost prefix: seq<u8>, ghost atom: seq<Instr>)
      returns (next: nat, ghost before: seq<u8>)
      requires byteCode == prefix + Assemble(atom) && start == |prefix| && first <= captureCount <= 0x100
      modifies this`byteCode
      ensures byteCode == before + Assemble(atom) && next == |before|
      ensures before == prefix + Assemble(HeadCode(atom, 0, first, captureCount - first))
    {
      hide Assemble, Encode;
      next, before := start, prefix;
      if first != captureCount {
        ghost var i, after := Instr.SaveReset(first, captureCount - 1), Assemble(atom);
        assert byteCode[..start] == prefix && byteCode[start..] == after;
        ghost var gap := Insert(start, 3);
        gap := Fill(next, [13], prefix, gap, after);
        next := next + 1;
        gap := Fill(next, [first], prefix + [13], gap, after);
        next := next + 1;
        gap := Fill(next, [captureCount - 1], prefix + [13] + [first], gap, after);
        next := next + 1;
        before := prefix + Encode(i);
        EncodingOf(i);
        assert gap == [];
        assert prefix + [13] + [first] + [captureCount - 1] == before;
        AssembleOne(i);
      } else {
        EmptyAssembles();
      }
    }

    /** `?` and `*`: at most one, or any number of optional iterations. */
    method EmitStar(start: nat, hasGoto: bool, greedy: bool, check: bool, ghost prefix: seq<u8>, ghost atom: seq<Instr>)
      requires byteCode == prefix + Assemble(atom) && start == |prefix| && check == NeedCheckAdvance(atom)
      modifies this`byteCode
      ensures byteCode == prefix
        + Assemble(if hasGoto then StarCode(LoopBody(atom), greedy) else OptionCode(LoopBody(atom), greedy))
    {
      hide Assemble, Encode, PutU32, NeedCheckAdvance, Len;
      var len := |byteCode| - start;
      var off := ToU32(len + (if hasGoto then 5 else 0) + if check then 2 else 0);
      ghost var body := LoopBody(atom);
      ghost var split := Instr.Split(greedy, off);
      LenLoopBody(atom);
      InsertSplit(start, greedy, off, check, prefix, atom);
      ghost var code := [split] + (Mark(check) + atom);
      if check {
        EncodingOf(Instr.CheckAdvance);
        AppendOp(26, Instr.CheckAdvance, prefix, code);
        code := code + [Instr.CheckAdvance];
      }
      assert code == [split] + body;
      if hasGoto {
        EncodingOf(Instr.Goto(Behind(Len(body) + 10)));
        LenSplitBody(split, body);
        AppendBack(7, start, Len(body) + 10, Instr.Goto(Behind(Len(body) + 10)), prefix, code);
      }
    }

    /** `{0,max}`: a counted number of optional iterations. */
    method EmitUpTo(start: nat, max: u32, greedy: bool, check: bool, ghost prefix: seq<u8>, ghost atom: seq<Instr>)
      requires byteCode == prefix + Assemble(atom) && start == |prefix| && check == NeedCheckAdvance(atom)
      modifies this`byteCode
      ensures byteCode == prefix + Assemble(UpToCode(LoopBody(atom), max, greedy))
    {
      hide Assemble, Encode, PutU32, NeedCheckAdvance, Len;
      var len := |byteCode| - start;
      var off := ToU32(len + 5 + if check then 2 else 0);
      ghost var body, after := LoopBody(atom), Assemble(atom);
      ghost var push, split := Instr.PushI32(max), Instr.Split(greedy, off);
      LenLoopBody(atom);
      assert byteCode[..start] == prefix && byteCode[start..] == after;
      ghost var gap := Insert(start, 10 + if check then 1 else 0);
      var pos := start;
      EncodingOf(push);
      EncodingOf(split);
      gap := FillU32(pos, 15, max, push, prefix, gap, after);
      pos := pos + 5;
      ghost var before := prefix + Encode(push);
      gap := FillU32(pos, 8 + Bit(greedy), off, split, before, gap, after);
      pos := pos + 5;
      if check {
        gap := Fill(pos, [25], before + Encode(split), gap, after);
      }
      MarkedBytes(before + Encode(split), check, gap, atom);
      Cons(before, split, Mark(check) + atom);
      Cons(prefix, push, [split] + (Mark(check) + atom));
      FinishUpTo(start, max, greedy, check, prefix, atom, push, split);
    }

    /** The end of a counted loop, after its head has been inserted. */
    method FinishUpTo(start: nat, max: u32, greedy: bool, check: bool, ghost prefix: seq<u8>, ghost atom: seq<Instr>,
                      ghost push: Instr, ghost split: Instr)
      requires byteCode == prefix + Assemble([push] + ([split] + (Mark(check) + atom))) && start == |prefix|
      requires check == NeedCheckAdvance(atom)
      requires push == Instr.PushI32(max) && split == Instr.Split(greedy, ToU32(Len(LoopBody(atom)) + 5))
      modifies this`byteCode
      ensures byteCode == prefix + Assemble(UpToCode(LoopBody(atom), max, greedy))
    {
      hide Assemble, Encode, PutU32, NeedCheckAdvance, Len;
      ghost var body := LoopBody(atom);
      ghost var code := [push] + ([split] + (Mark(check) + atom));
      if check {
        EncodingOf(Instr.CheckAdvance);
        AppendOp(26, Instr.CheckAdvance, prefix, code);
        code := code + [Instr.CheckAdvance];
      }
      assert code == [push] + ([split] + body);
      EncodingOf(Instr.Loop(Behind(Len(body) + 10)));
      LenSplitBody(split, body);
      LenSplitBody(push, [split] + body);
      AppendBack(14, start + 5, Len(body) + 10, Instr.Loop(Behind(Len(body) + 10)), prefix, code);
      code := code + [Instr.Loop(Behind(Len(body) + 10))];
      EncodingOf(Instr.Drop);
      AppendOp(16, Instr.Drop, prefix, code);
      assert code + [Instr.Drop] == UpToCode(body, max, greedy);
    }

    /** `push n; atom; loop; drop` around the atom. Returns where the atom starts now. */
    method EmitTimes(start: nat, n: u32, ghost prefix: seq<u8>, ghost atom: seq<Instr>) returns (next: nat)
      requires byteCode == prefix + Assemble(atom) && start == |prefix|
      modifies this`byteCode
      ensures byteCode == prefix + Assemble(TimesCode(atom, n)) && next == start + 5
    {
      hide Assemble, Encode, PutU32, Len;
      ghost var push, loop := Instr.PushI32(n), Instr.Loop(Behind(Len(atom) + 5));
      assert byteCode[..start] == prefix && byteCode[start..] == Assemble(atom);
      InsertU32(start, 15, n);
      EncodingOf(push);
      Cons(prefix, push, atom);
      next := start + 5;
      EncodingOf(loop);
      LenSplitBody(push, atom);
      AppendBack(14, next, Len(atom) + 5, loop, prefix, [push] + atom);
      EncodingOf(Instr.Drop);
      AppendOp(16, Instr.Drop, prefix, [push] + atom + [loop]);
      assert [push] + atom + [loop] + [Instr.Drop] == TimesCode(atom, n);
    }

    /** Append a copy of the `len` bytes at `from`. */
    method PutSelf(from: nat, len: nat)
      requires from + len <= |byteCode|
      modifies this`byteCode
      ensures byteCode == old(byteCode) + old(byteCode)[from..from + len]
    {
      byteCode := byteCode + byteCode[from..from + len];
    }

    /** Append the optional iterations after the mandatory ones, copying the atom from `from`. */
    method AppendTail(from: nat, len: nat, more: Option<u32>, greedy: bool, check: bool, ghost prefix: seq<u8>,
                      ghost head: seq<Instr>, ghost atom: seq<Instr>)
      requires byteCode == prefix + Assemble(head) && from + len <= |byteCode|
      requires byteCode[from..from + len] == Assemble(atom) && len == Len(atom)
      requires check == NeedCheckAdvance(atom)
      modifies this`byteCode
      ensures byteCode == prefix + Assemble(head
        + if more.None? then StarCode(LoopBody(atom), greedy) else UpToCode(LoopBody(atom), more.value, greedy))
    {
      hide Assemble, Encode, PutU32, NeedCheckAdvance, Len;
      ghost var bytes := Assemble(atom);
      ghost var body := LoopBody(atom);
      LenLoopBody(atom);
      ghost var code := head;
      if more.Some? {
        EncodingOf(Instr.PushI32(more.value));
        var _ := AppendU32(15, more.value, Instr.PushI32(more.value), prefix, code);
        code := code + [Instr.PushI32(more.value)];
      }
      var pos := |byteCode|;
      ghost var before := code;
      var off := ToU32(len + 5 + if check then 2 else 0);
      ghost var split := Instr.Split(greedy, off);
      EncodingOf(split);
      var _ := AppendU32(8 + Bit(greedy), off, split, prefix, code);
      code := code + [split];
      if check {
        EncodingOf(Instr.PushCharPos);
        AppendOp(25, Instr.PushCharPos, prefix, code);
        code := code + [Instr.PushCharPos];
      }
      KeepsSlice(old(byteCode), byteCode, from, len, prefix, head, code);
      PutSelf(from, len);
      Joined(prefix, code, atom);
      code := code + atom;
      if check {
        EncodingOf(Instr.CheckAdvance);
        AppendOp(26, Instr.CheckAdvance, prefix, code);
        code := code + [Instr.CheckAdvance];
      }
      assert code == before + ([split] + body);
      AssembleConcat(before, [split] + body);
      LenSplitBody(split, body);
      CloseTail(pos, more, greedy, prefix, head, before, split, body);
    }

    /** The jump back that closes the optional iterations. */
    method CloseTail(pos: nat, more: Option<u32>, greedy: bool, ghost prefix: seq<u8>, ghost head: seq<Instr>,
                     ghost before: seq<Instr>, ghost split: Instr, ghost body: seq<Instr>)
      requires byteCode == prefix + Assemble(before + ([split] + body)) && |byteCode| == pos + Len(body) + 5
      requires split == Instr.Split(greedy, ToU32(Len(body) + 5))
      requires before == if more.None? then head else head + [Instr.PushI32(more.value)]
      modifies this`byteCode
      ensures byteCode == prefix + Assemble(head
        + if more.None? then StarCode(body, greedy) else UpToCode(body, more.value, greedy))
    {
      hide Assemble, Encode, PutU32, Len;
      ghost var code := before + ([split] + body);
      if more.None? {
        ghost var i := Instr.Goto(Behind(Len(body) + 10));
        EncodingOf(i);
        AppendBack(7, pos, Len(body) + 10, i, prefix, code);
        assert code + [i] == head + StarCode(body, greedy);
      } else {
        ghost var i := Instr.Loop(Behind(Len(body) + 10));
        EncodingOf(i);
        AppendBack(14, pos, Len(body) + 10, i, prefix, code);
        EncodingOf(Instr.Drop);
        AppendOp(16, Instr.Drop, prefix, code + [i]);
        assert code + [i] + [Instr.Drop] == head + UpToCode(body, more.value, greedy);
      }
    }

    /** The emission for a quantifier whose atom occupies the bytes from `start0` on. */
    method EmitQuantifier(start0: nat, lastCaptureCount: nat, min: nat, max: nat, greedy: bool,
                          ghost prefix: seq<u8>, ghost atom: seq<Instr>)
      requires byteCode == prefix + Assemble(atom) && start0 == |prefix| && AllWellFormed(atom)
      requires min <= max <= INFINITE && lastCaptureCount <= captureCount <= 0x100
      modifies this`byteCode
      ensures byteCode == prefix
        + Assemble(QuantCode(atom, min, max, greedy, lastCaptureCount, captureCount - lastCaptureCount))
    {
      hide Assemble, Encode, NeedCheckAdvance, Len, SimpleLen, HeadCode, TailCode, QuantCode, GreedyCode, PlusCode,
        TimesCode, StarCode, UpToCode, OptionCode, LoopBody, CodeAt, AllWellFormed;
      var start := start0;
      ghost var groups := captureCount - lastCaptureCount;
      QuantShape(atom, min, max, greedy, lastCaptureCount, groups);
      SelfCode(atom);
      var buf := byteCode[start..];
      assert buf == Assemble(atom);
      if greedy && max > 0 {
        var simple := ReIsSimpleQuantifier(buf, atom);
        if simple > 0 {
          EmitSimpleGreedy(start, min, max, ToU32(simple), prefix, atom);
          return;
        }
      }
      assert !IsFast(atom, max, greedy);
      var check := ReNeedCheckAdvance(buf, atom);
      var len := |byteCode| - start;
      if min == 0 {
        ghost var before;
        start, before := InsertReset(start, lastCaptureCount, prefix, atom);
        ghost var head := HeadCode(atom, 0, lastCaptureCount, groups);
        if max == 0 {
          byteCode := byteCode[..start];
          TailNone(atom, 0, 0, greedy);
        } else if max == 1 || max == INFINITE {
          EmitStar(start, max == INFINITE, greedy, check, before, atom);
          TailStar(atom, max, greedy);
        } else {
          EmitUpTo(start, max, greedy, check, before, atom);
          TailUpTo(atom, 0, max, greedy);
        }
        Joined(prefix, head, TailCode(atom, 0, max, greedy));
      } else if min == 1 && max == INFINITE && !check {
        ghost var i := Instr.Split(!greedy, Behind(Len(atom) + 5));
        EncodingOf(i);
        AppendBack(if greedy then 8 else 9, start, Len(atom) + 5, i, prefix, atom);
        PlusIs(atom, greedy);
      } else {
        ghost var head := HeadCode(atom, min, lastCaptureCount, groups);
        HeadIs(atom, min, lastCaptureCount, groups);
        if min != 1 {
          start := EmitTimes(start, min, prefix, atom);
          TimesSlice(prefix, atom, min);
        }
        if max == INFINITE {
          AppendTail(start, len, None, greedy, check, prefix, head, atom);
        } else if max > min {
          AppendTail(start, len, Some(max - min), greedy, check, prefix, head, atom);
        }
        TailIs(atom, min, max, greedy);
        assert head + [] == head;
      }
    }

    // ---- characters, groups, alternatives ----

    method EmitPairs16(points: seq<u32>, ghost ps: seq<(u16, u16)>)
      requires |points| == 2 * |ps|
      requires forall k :: 0 <= k < |ps| ==> ps[k] == (points[2 * k] % 0x1_0000, High16(points[2 * k + 1]))
      modifies this`byteCode
      ensures byteCode == old(byteCode) + PutPairs16(ps)
    {
      hide PutU16, PutPairs16, High16;
      ghost var head := byteCode;
      var i := 0;
      PairsNone();
      while i < |points|
        invariant 0 <= i <= |points| && i % 2 == 0
        invariant byteCode == head + PutPairs16(ps[..i / 2])
      {
        Put(PutU16(points[i] % 0x1_0000));
        Put(PutU16(High16(points[i + 1])));
        Pairs16Snoc(ps[..i / 2], ps[i / 2]);
        assert ps[..i / 2] + [ps[i / 2]] == ps[..i / 2 + 1];
        i := i + 2;
      }
      assert ps[..i / 2] == ps;
    }

    method EmitPairs32(points: seq<u32>, ghost ps: seq<(u32, u32)>)
      requires |points| == 2 * |ps|
      requires forall k :: 0 <= k < |ps| ==> ps[k].0 == points[2 * k]
      requires forall k :: 0 <= k < |ps| ==> ps[k].1 == (var v: int := points[2 * k + 1]; ToU32(v - 1))
      modifies this`byteCode
      ensures byteCode == old(byteCode) + PutPairs32(ps)
    {
      hide PutU32, PutPairs32, ToU32;
      ghost var head := byteCode;
      var i := 0;
      PairsNone();
      while i < |points|
        invariant 0 <= i <= |points| && i % 2 == 0
        invariant byteCode == head + PutPairs32(ps[..i / 2])
      {
        var bound: int := points[i + 1];
        Put(PutU32(points[i]));
        Put(PutU32(ToU32(bound - 1)));
        Pairs32Snoc(ps[..i / 2], ps[i / 2]);
        assert ps[..i / 2] + [ps[i / 2]] == ps[..i / 2 + 1];
        i := i + 2;
      }
      assert ps[..i / 2] == ps;
    }

    /** A class becomes a 16- or 32-bit range instruction, or one that never matches. */
    method EmitRange(points: seq<u32>, ghost prefix: seq<u8>, ghost code: seq<Instr>) returns (err: Option<CompileError>)
      requires byteCode == prefix + Assemble(code) && |points| % 2 == 0
      modifies this`byteCode
      ensures err == if |points| / 2 >= 65535 then Some(TooManyRanges) else None
      ensures err.None? ==> byteCode == prefix + Assemble(code + [ClassInstr(points)])
    {
      hide Assemble, Encode, PutU16, PutU32, ClassInstr, PutPairs16, PutPairs32;
      var len := |points| / 2;
      if len >= 65535 {
        return Some(TooManyRanges);
      }
      RangeEncoding(points);
      ghost var before := byteCode;
      if len == 0 {
        var _ := EmitOpU32(2, UINT32_MAX);
      } else {
        var high := points[|points| - 1];
        if high == UINT32_MAX {
          high := points[|points| - 2];
        }
        if high <= 0xffff {
          Put([21]);
          Put(PutU16(len));
          EmitPairs16(points, ClassInstr(points).pairs);
        } else {
          Put([22]);
          Put(PutU16(len));
          EmitPairs32(points, ClassInstr(points).pairs32);
        }
      }
      assert byteCode == before + Encode(ClassInstr(points));
      Snoc(prefix, code, ClassInstr(points));
      return None;
    }

    /** A one-character pattern, between the two steps back of backward matching. */
    method EmitChar(n: Node, back: bool) returns (err: Option<CompileError>)
      requires n.Char? || n.AnyChar? || n.Class?
      requires WellParsed(n) && captureCount <= CAPTURE_COUNT_MAX
      modifies this`byteCode
      ensures err == if ClassesFit(n) then None else Some(TooManyRanges)
      ensures err.None? ==> ValidNode(n) && byteCode == old(byteCode) + Assemble(Code(flags, n, back, captureCount))
    {
      hide Assemble, Encode, ClassInstr, Normal;
      ghost var before := byteCode;
      ghost var code: seq<Instr> := [];
      EmptyAssembles();
      assert byteCode == before + [];
      PrevEncoding();
      if back {
        AppendOp(27, Instr.Prev, before, code);
        code := code + [Instr.Prev];
      }
      CharEncoding(n, flags);
      match n {
      case Char(c) =>
        var d := Fold(flags, c);
        if d <= 0xffff {
          Put([1]);
          Put(PutU16(d));
          assert byteCode == before + Assemble(code) + Encode(LiteralInstr(d));
        } else {
          var _ := EmitOpU32(2, d);
          assert byteCode == before + Assemble(code) + Encode(LiteralInstr(d));
        }
        Snoc(before, code, LiteralInstr(d));
        code := code + [LiteralInstr(d)];
      case AnyChar =>
        AppendOp(if flags.dotAll then 4 else 3, if flags.dotAll then Instr.Any else Instr.Dot, before, code);
        code := code + [if flags.dotAll then Instr.Any else Instr.Dot];
      case Class(points) =>
        NormalParity(points);
        err := EmitRange(points, before, code);
        if err.Some? {
          return;
        }
        code := code + [ClassInstr(points)];
      }
      if back {
        AppendOp(27, Instr.Prev, before, code);
        code := code + [Instr.Prev];
      }
      err := None;
      ValidMeaning(n);
      assert code == Code(flags, n, back, captureCount);
    }

    /** An assertion or a back reference. */
    method EmitSimple(n: Node, back: bool)
      requires n.LineStart? || n.LineEnd? || n.WordBoundary? || n.BackRef? || n.Empty?
      requires captureCount <= CAPTURE_COUNT_MAX
      modifies this`byteCode
      ensures ValidNode(n) && byteCode == old(byteCode) + Assemble(Code(flags, n, back, captureCount))
    {
      hide Assemble, Encode;
      ghost var before := byteCode;
      EmptyAssembles();
      assert before == before + [];
      match n {
        case Empty =>
        case LineStart =>
          SimpleEncodings(false);
          AppendOp(5, Instr.LineStart, before, []);
          assert [] + [Instr.LineStart] == [Instr.LineStart];
        case LineEnd =>
          SimpleEncodings(false);
          AppendOp(6, Instr.LineEnd, before, []);
          assert [] + [Instr.LineEnd] == [Instr.LineEnd];
        case WordBoundary(negated) =>
          SimpleEncodings(negated);
          AppendOp(17 + Bit(negated), Instr.WordBoundary(negated), before, []);
          assert [] + [Instr.WordBoundary(negated)] == [Instr.WordBoundary(negated)];
        case BackRef(idx) =>
          GroupEncodings(back, idx);
          Put([19 + Bit(back), idx]);
          Snoc(before, [], Instr.BackRef(back, idx));
          assert [] + [Instr.BackRef(back, idx)] == [Instr.BackRef(back, idx)];
      }
    }

    /** Emits the code of a pattern at the end of the buffer. */
    method CompileNode(n: Node, back: bool) returns (err: Option<CompileError>)
      requires WellParsed(n) && captureCount <= CAPTURE_COUNT_MAX
      modifies this`byteCode, this`captureCount
      ensures err.None? <==> ClassesFit(n) && old(captureCount) + Groups(n) <= CAPTURE_COUNT_MAX
      ensures err == Some(TooManyCaptures) ==> old(captureCount) + Groups(n) > CAPTURE_COUNT_MAX
      ensures err == Some(TooManyRanges) ==> !ClassesFit(n)
      ensures err.None? ==> ValidNode(n) && captureCount == old(captureCount) + Groups(n)
      ensures err.None? ==> byteCode == old(byteCode) + Assemble(Code(flags, n, back, old(captureCount)))
      decreases Nodes(n), 0
    {
      hide Assemble, Len, ToU32, QuantCode, AltCode, CharCode, LiteralInstr, ClassInstr, Encode, Normal, SimpleLen,
        NeedCheckAdvance, LoopBody;
      match n {
        case Char(_) => err := EmitChar(n, back);
        case AnyChar => err := EmitChar(n, back);
        case Class(_) => err := EmitChar(n, back);
        case Cat(a, b) => err := CompileCat(a, b, back);
        case Alt(a, b) => err := CompileAlt(a, b, back);
        case Capture(a) => err := CompileCapture(a, back);
        case Look(a, neg, behind) => err := CompileLook(a, neg, behind);
        case Quant(a, min, max, greedy) => err := CompileQuant(a, min, max, greedy, back);
        case _ =>
          EmitSimple(n, back);
          err := None;
      }
    }

    method CompileCapture(a: Node, back: bool) returns (err: Option<CompileError>)
      requires WellParsed(a) && captureCount <= CAPTURE_COUNT_MAX
      modifies this`byteCode, this`captureCount
      ensures err.None? <==> ClassesFit(a) && old(captureCount) + (1 + Groups(a)) <= CAPTURE_COUNT_MAX
      ensures err == Some(TooManyCaptures) ==> old(captureCount) + (1 + Groups(a)) > CAPTURE_COUNT_MAX
      ensures err == Some(TooManyRanges) ==> !ClassesFit(a)
      ensures err.None? ==> ValidNode(a) && captureCount == old(captureCount) + (1 + Groups(a))
      ensures err.None? ==> var cc := old(captureCount);
        byteCode == old(byteCode)
          + Assemble([Instr.Save(back, cc)] + Code(flags, a, back, cc + 1) + [Instr.Save(!back, cc)])
      decreases Nodes(a), 1
    {
      hide Assemble, Encode, Code;
      ghost var before := byteCode;
      if captureCount >= CAPTURE_COUNT_MAX {
        return Some(TooManyCaptures);
      }
      var index := captureCount;
      captureCount := captureCount + 1;
      GroupEncodings(back, index);
      GroupEncodings(!back, index);
      Put([11 + Bit(back), index]);
      err := CompileNode(a, back);
      if err.Some? {
        return;
      }
      Put([11 + Bit(!back), index]);
      BracketBytes(before, Instr.Save(back, index), Code(flags, a, back, index + 1), Instr.Save(!back, index));
    }

    /** The jump over the body is patched once the body has been emitted. */
    method CompileLook(a: Node, neg: bool, behind: bool) returns (err: Option<CompileError>)
      requires WellParsed(a) && captureCount <= CAPTURE_COUNT_MAX
      modifies this`byteCode, this`captureCount
      ensures err.None? <==> ClassesFit(a) && old(captureCount) + Groups(a) <= CAPTURE_COUNT_MAX
      ensures err == Some(TooManyCaptures) ==> old(captureCount) + Groups(a) > CAPTURE_COUNT_MAX
      ensures err == Some(TooManyRanges) ==> !ClassesFit(a)
      ensures err.None? ==> ValidNode(a) && captureCount == old(captureCount) + Groups(a)
      ensures err.None? ==> var ca := Code(flags, a, behind, old(captureCount));
        byteCode == old(byteCode) + Assemble([Instr.Look(neg, ToU32(Len(ca) + 1))] + ca + [Instr.Match])
      decreases Nodes(a), 1
    {
      hide Assemble, Encode, Code, Len, ToU32, PutU32;
      ghost var before, cc := byteCode, captureCount;
      var pos := EmitOpU32(23 + Bit(neg), 0);
      err := CompileNode(a, behind);
      if err.Some? {
        return;
      }
      EmitOp(10);
      ghost var ca := Code(flags, a, behind, cc);
      var size := |byteCode| - (pos + 4);
      ghost var after := Assemble(ca) + [10];
      assert byteCode == (before + [23 + Bit(neg)]) + PutU32(0) + after;
      ghost var left := Fill(pos, PutU32(ToU32(size)), before + [23 + Bit(neg)], PutU32(0), after);
      EncodingOf(Instr.Look(neg, ToU32(Len(ca) + 1)));
      EncodingOf(Instr.Match);
      assert left == [];
      PatchedBytes(before, [23 + Bit(neg)], PutU32(ToU32(size)), after);
      BracketBytes(before, Instr.Look(neg, ToU32(Len(ca) + 1)), ca, Instr.Match);
    }

    method CompileQuant(a: Node, min: nat, max: nat, greedy: bool, back: bool) returns (err: Option<CompileError>)
      requires WellParsed(a) && captureCount <= CAPTURE_COUNT_MAX && min <= max <= INFINITE
      modifies this`byteCode, this`captureCount
      ensures err.None? <==> ClassesFit(a) && old(captureCount) + Groups(a) <= CAPTURE_COUNT_MAX
      ensures err == Some(TooManyCaptures) ==> old(captureCount) + Groups(a) > CAPTURE_COUNT_MAX
      ensures err == Some(TooManyRanges) ==> !ClassesFit(a)
      ensures err.None? ==> ValidNode(a) && captureCount == old(captureCount) + Groups(a)
      ensures err.None? ==> var ca := Code(flags, a, back, old(captureCount));
        byteCode == old(byteCode) + Assemble(QuantCode(ca, min, max, greedy, old(captureCount), Groups(a)))
      decreases Nodes(a), 1
    {
      hide Assemble, Code, QuantCode, AllWellFormed;
      ghost var before, cc := byteCode, captureCount;
      var start := |byteCode|;
      var lastCaptureCount := captureCount;
      err := CompileNode(a, back);
      if err.Some? {
        return;
      }
      CodeWellFormed(flags, a, back, cc);
      EmitQuantifier(start, lastCaptureCount, min, max, greedy, before, Code(flags, a, back, cc));
    }

    /** Two terms; in backward matching the second is rotated to the front. */
    method CompileCat(a: Node, b: Node, back: bool) returns (err: Option<CompileError>)
      requires WellParsed(a) && WellParsed(b) && captureCount <= CAPTURE_COUNT_MAX
      modifies this`byteCode, this`captureCount
      ensures err.None? <==> ClassesFit(a) && ClassesFit(b) && old(captureCount) + Groups(a) + Groups(b) <= CAPTURE_COUNT_MAX
      ensures err == Some(TooManyCaptures) ==> old(captureCount) + Groups(a) + Groups(b) > CAPTURE_COUNT_MAX
      ensures err == Some(TooManyRanges) ==> !(ClassesFit(a) && ClassesFit(b))
      ensures err.None? ==> ValidNode(a) && ValidNode(b) && captureCount == old(captureCount) + Groups(a) + Groups(b)
      ensures err.None? ==>
        var ca, cb := Code(flags, a, back, old(captureCount)), Code(flags, b, back, old(captureCount) + Groups(a));
        byteCode == old(byteCode) + Assemble(if back then cb + ca else ca + cb)
      decreases Nodes(a) + Nodes(b), 1
    {
      hide Assemble, Code, WellParsed, ValidNode;
      ghost var before, cc := byteCode, captureCount;
      var start := |byteCode|;
      err := CompileNode(a, back);
      if err.Some? {
        return;
      }
      var termStart := |byteCode|;
      err := CompileNode(b, back);
      if err.Some? {
        return;
      }
      ghost var ca, cb := Code(flags, a, back, cc), Code(flags, b, back, cc + Groups(a));
      if back {
        RotateTerm(start, termStart, before, Assemble(ca), Assemble(cb));
        Joined(before, cb, ca);
      } else {
        Joined(before, ca, cb);
      }
    }

    /** Move the last term, which starts at `termStart`, before the terms that start at `start`. */
    method RotateTerm(start: nat, termStart: nat, ghost before: seq<u8>, ghost a: seq<u8>, ghost b: seq<u8>)
      requires byteCode == before + a + b && start == |before| && termStart == start + |a|
      modifies this`byteCode
      ensures byteCode == before + b + a
    {
      var end := |byteCode|;
      var termSize := end - termStart;
      var room: seq<u8> := seq(termSize, _ => 0);
      RotateLast(before, a, b, room);
      var shifted := byteCode[..start] + room + byteCode[start..end];
      byteCode := (shifted[..start] + shifted[end..end + termSize] + shifted[start + termSize..])[..end];
      assert before + (b + a) == before + b + a;
    }

    /** Two alternatives: a split before the first, a jump over the second, patched afterwards. */
    method CompileAlt(a: Node, b: Node, back: bool) returns (err: Option<CompileError>)
      requires WellParsed(a) && WellParsed(b) && captureCount <= CAPTURE_COUNT_MAX
      modifies this`byteCode, this`captureCount
      ensures err.None? <==> ClassesFit(a) && ClassesFit(b) && old(captureCount) + Groups(a) + Groups(b) <= CAPTURE_COUNT_MAX
      ensures err == Some(TooManyCaptures) ==> old(captureCount) + Groups(a) + Groups(b) > CAPTURE_COUNT_MAX
      ensures err == Some(TooManyRanges) ==> !(ClassesFit(a) && ClassesFit(b))
      ensures err.None? ==> ValidNode(a) && ValidNode(b) && captureCount == old(captureCount) + Groups(a) + Groups(b)
      ensures err.None? ==>
        var ca, cb := Code(flags, a, back, old(captureCount)), Code(flags, b, back, old(captureCount) + Groups(a));
        byteCode == old(byteCode)
          + Assemble(AltCode(ca, cb))
      decreases Nodes(a) + Nodes(b), 1
    {
      hide Assemble, Code, WellParsed, ValidNode, Encode, PutU32, Len, ToU32, ClassesFit, Groups;
      ghost var before, cc := byteCode, captureCount;
      var start := |byteCode|;
      err := CompileNode(a, back);
      if err.Some? {
        return;
      }
      ghost var ca := Code(flags, a, back, cc);
      var len := |byteCode| - start;
      assert byteCode[..start] == before && byteCode[start..] == Assemble(ca);
      InsertU32(start, 9, ToU32(len + 5));
      ghost var split := Instr.Split(true, ToU32(Len(ca) + 5));
      EncodingOf(split);
      Cons(before, split, ca);
      ghost var first := byteCode;
      var pos := EmitOpU32(7, 0);
      err := CompileNode(b, back);
      if err.Some? {
        return;
      }
      ghost var cb := Code(flags, b, back, cc + Groups(a));
      len := |byteCode| - (pos + 4);
      ghost var left := Fill(pos, PutU32(ToU32(len)), first + [7], PutU32(0), Assemble(cb));
      ghost var goto := Instr.Goto(ToU32(Len(cb)));
      EncodingOf(goto);
      assert left == [];
      PatchedBytes(first, [7], PutU32(ToU32(len)), Assemble(cb));
      Snoc(before, [split] + ca, goto);
      Joined(before, [split] + ca + [goto], cb);
    }
  }

  lemma PatchedBytes(before: seq<u8>, op: seq<u8>, operand: seq<u8>, after: seq<u8>)
    ensures before + op + operand + [] + after == before + (op + operand) + after
  {
    assert before + op + operand == before + (op + operand);
  }

  lemma BracketBytes(before: seq<u8>, first: Instr, code: seq<Instr>, last: Instr)
    ensures before + Encode(first) + Assemble(code) + Encode(last) == before + Assemble([first] + code + [last])
    ensures before + Encode(first) + (Assemble(code) + Encode(last)) == before + Assemble([first] + code + [last])
  {
    hide Assemble, Encode;
    Cons(before, first, code);
    Snoc(before, [first] + code, last);
    assert before + Encode(first) + (Assemble(code) + Encode(last)) == before + Encode(first) + Assemble(code) + Encode(last);
  }

  /** Shifting the terms right by the size of the last one and copying it down rotates it to the front. */
  lemma RotateLast(before: seq<u8>, a: seq<u8>, b: seq<u8>, room: seq<u8>)
    requires |room| == |b|
    ensures var all := before + a + b; var start, end := |before|, |before + a + b|;
      var shifted := all[..start] + room + all[start..end];
      && |shifted| == end + |b|
      && (shifted[..start] + shifted[end..end + |b|] + shifted[start + |b|..])[..end] == before + (b + a)
  {
    var all := before + a + b;
    var start, end := |before|, |all|;
    var shifted := all[..start] + room + all[start..end];
    assert all[..start] == before && all[start..end] == a + b;
    assert shifted == before + room + a + b;
    assert shifted[..start] == before;
    assert shifted[end..end + |b|] == b;
    assert shifted[start + |b|..] == a + b;
  }

  lemma NormalParity(points: seq<u32>)
    requires Normal(points)
    ensures |points| % 2 == 0
  {
  }

  lemma PrevEncoding()
    ensures Encode(Instr.Prev) == [27]
  {
  }

  lemma CharEncoding(n: Node, f: Flags)
    ensures n.Char? ==>
      var d := Fold(f, n.c);
      Encode(LiteralInstr(d)) == if d <= 0xffff then [1] + PutU16(d) else [2] + PutU32(d)
    ensures Encode(Instr.Any) == [4] && Encode(Instr.Dot) == [3]
  {
  }

  lemma SimpleEncodings(negated: bool)
    ensures Encode(Instr.LineStart) == [5] && Encode(Instr.LineEnd) == [6]
    ensures Encode(Instr.WordBoundary(negated)) == [17 + Bit(negated)]
  {
  }

  lemma GroupEncodings(flag: bool, idx: u8)
    ensures Encode(Instr.Save(flag, idx)) == [11 + Bit(flag), idx]
    ensures Encode(Instr.BackRef(flag, idx)) == [19 + Bit(flag), idx]
  {
  }

  lemma RangeEncoding(points: seq<u32>)
    requires |points| % 2 == 0 && |points| / 2 < 65535
    ensures var i := ClassInstr(points); var n := |points| / 2;
      if n == 0 then Encode(i) == [2] + PutU32(UINT32_MAX)
      else if LastBound(points) <= 0xffff then
        && i.Range? && |i.pairs| == n && Encode(i) == [21] + PutU16(n) + PutPairs16(i.pairs)
        && forall k :: 0 <= k < n ==> i.pairs[k] == (points[2 * k] % 0x1_0000, High16(points[2 * k + 1]))
      else
        && i.Range32? && |i.pairs32| == n && Encode(i) == [22] + PutU16(n) + PutPairs32(i.pairs32)
        && (forall k :: 0 <= k < n ==> i.pairs32[k].0 == points[2 * k])
        && (forall k :: 0 <= k < n ==> i.pairs32[k].1 == (var v: int := points[2 * k + 1]; ToU32(v - 1)))
  {
    hide PutU16, PutU32, PutPairs16, PutPairs32, ToU32, High16;
  }

  lemma PairsNone()
    ensures PutPairs16([]) == [] && PutPairs32([]) == []
  {
  }

  lemma {:induction false} Pairs16Snoc(ps: seq<(u16, u16)>, p: (u16, u16))
    ensures PutPairs16(ps + [p]) == PutPairs16(ps) + PutU16(p.0) + PutU16(p.1)
    decreases |ps|
  {
    hide PutU16;
    if ps == [] {
      assert ([] + [p])[1..] == [];
    } else {
      assert (ps + [p])[1..] == ps[1..] + [p];
      Pairs16Snoc(ps[1..], p);
    }
  }

  lemma {:induction false} Pairs32Snoc(ps: seq<(u32, u32)>, p: (u32, u32))
    ensures PutPairs32(ps + [p]) == PutPairs32(ps) + PutU32(p.0) + PutU32(p.1)
    decreases |ps|
  {
    hide PutU32;
    if ps == [] {
      assert ([] + [p])[1..] == [];
    } else {
      assert (ps + [p])[1..] == ps[1..] + [p];
      Pairs32Snoc(ps[1..], p);
    }
  }

  /** Compiles a pattern: succeeds exactly when its classes, its groups and its stack depth fit, and then
      produces the bytes of its program and the counts of the header. */
  method LreCompile(flags: Flags, n: Node, sticky: bool) returns (r: CompileResult)
    requires WellParsed(n)
    ensures r.Success? <==>
      ClassesFit(n) && 1 + Groups(n) <= 255 && ValidNode(n)
      && MaxDepth(ProgramCode(flags, n, sticky), 0, 0) <= 255
    ensures r == Failure(TooManyCaptures) ==> 1 + Groups(n) > 255
    ensures r == Failure(TooManyRanges) ==> !ClassesFit(n)
    ensures r.Success? ==> r.code == Assemble(ProgramCode(flags, n, sticky))
    ensures r.Success? ==> r.captureCount == 1 + Groups(n)
    ensures r.Success? ==> r.stackSize == MaxDepth(ProgramCode(flags, n, sticky), 0, 0)
  {
    hide Assemble, Encode, Len, Code, MaxDepth, CodeAt, Balanced;
    var c := new Compiler(flags);
    ghost var code: seq<Instr> := [];
    EmptyAssembles();
    ghost var none: seq<u8> := [];
    assert c.byteCode == none + Assemble(code);
    if !sticky {
      EncodingOf(Instr.Split(false, 6));
      var _ := c.AppendU32(8, 6, Instr.Split(false, 6), none, code);
      CharEncoding(n, flags);
      c.AppendOp(4, Instr.Any, none, code + [Instr.Split(false, 6)]);
      EncodingOf(Instr.Goto(Behind(11)));
      var _ := c.AppendU32(7, Behind(11), Instr.Goto(Behind(11)), none, code + [Instr.Split(false, 6)] + [Instr.Any]);
      code := SearchCode();
      assert code == [] + [Instr.Split(false, 6)] + [Instr.Any] + [Instr.Goto(Behind(11))];
    }
    GroupEncodings(false, 0);
    GroupEncodings(true, 0);
    c.Put([11, 0]);
    Snoc(none, code, Instr.Save(false, 0));
    code := code + [Instr.Save(false, 0)];
    var err := c.CompileNode(n, false);
    if err.Some? {
      ValidMeaning(n);
      return Failure(err.value);
    }
    Joined(none, code, Code(flags, n, false, 1));
    code := code + Code(flags, n, false, 1);
    c.Put([12, 0]);
    Snoc(none, code, Instr.Save(true, 0));
    EncodingOf(Instr.Match);
    c.AppendOp(10, Instr.Match, none, code + [Instr.Save(true, 0)]);
    ghost var program := ProgramCode(flags, n, sticky);
    assert code + [Instr.Save(true, 0)] + [Instr.Match] == program;
    assert c.byteCode == Assemble(program);
    ProgramWellFormed(flags, n, sticky);
    SelfCode(program);
    ProgramBalanced(flags, n, sticky);
    var stackSize := ComputeStackSize(c.byteCode, program);
    if stackSize < 0 {
      return Failure(TooManyImbricatedQuantifiers);
    }
    return Success(c.captureCount, stackSize, c.byteCode);
  }

  lemma ProgramBalanced(f: Flags, n: Node, sticky: bool)
    requires ValidNode(n) && 1 + Groups(n) <= 0x100
    ensures Balanced(ProgramCode(f, n, sticky))
  {
    hide Balanced, Code, SearchCode, ProgramCode, Groups, ValidNode;
    ProgramShape(f, n, sticky);
    var whole := Node.Capture(n);
    var prefix := if sticky then [] else SearchCode();
    SearchBalanced();
    BalancedEmpty();
    CodeBalanced(f, whole, false, 0);
    BalancedOne(Instr.Match);
    BalancedConcat(Code(f, whole, false, 0), [Instr.Match]);
    BalancedConcat(prefix, Code(f, whole, false, 0) + [Instr.Match]);
  }

  lemma SearchBalanced()
    ensures Balanced(SearchCode())
  {
    hide Balanced, Behind;
    BalancedOne(Instr.Split(false, 6));
    BalancedOne(Instr.Any);
    BalancedOne(Instr.Goto(Behind(11)));
    BalancedConcat([Instr.Split(false, 6)], [Instr.Any]);
    BalancedConcat([Instr.Split(false, 6)] + [Instr.Any], [Instr.Goto(Behind(11))]);
    assert SearchCode() == [Instr.Split(false, 6)] + [Instr.Any] + [Instr.Goto(Behind(11))];
  }

  lemma EmptyAssembles()
    ensures Assemble([]) == []
  {
  }

  lemma LenLoopBody(atom: seq<Instr>)
    ensures Len(LoopBody(atom)) == Len(atom) + if NeedCheckAdvance(atom) then 2 else 0
  {
    hide Len, NeedCheckAdvance;
    LenBracketSizes(atom);
  }

  lemma LenBracketSizes(atom: seq<Instr>)
    ensures Len([Instr.PushCharPos] + atom + [Instr.CheckAdvance]) == Len(atom) + 2
  {
    hide Len;
    LenSplitBody(Instr.PushCharPos, atom);
    LenConcat([Instr.PushCharPos] + atom, [Instr.CheckAdvance]);
    LenOne(Instr.CheckAdvance);
  }

  lemma LenOne(i: Instr)
    ensures Len([i]) == Size(i)
  {
    hide Size;
    assert [i][1..] == [];
  }

  lemma LenSplitBody(i: Instr, body: seq<Instr>)
    ensures Len([i] + body) == Size(i) + Len(body)
  {
    hide Len, Size;
    LenConcat([i], body);
    LenOne(i);
  }

  lemma Joined(prefix: seq<u8>, head: seq<Instr>, tail: seq<Instr>)
    ensures prefix + Assemble(head) + Assemble(tail) == prefix + Assemble(head + tail)
  {
    hide Assemble;
    AssembleConcat(head, tail);
    assert prefix + Assemble(head) + Assemble(tail) == prefix + (Assemble(head) + Assemble(tail));
  }

  lemma TailNone(atom: seq<Instr>, min: nat, max: nat, greedy: bool)
    requires min == max <= INFINITE && max != INFINITE
    ensures TailCode(atom, min, max, greedy) == [] && Assemble([]) == []
  {
  }

  lemma TailStar(atom: seq<Instr>, max: nat, greedy: bool)
    requires max == 1 || max == INFINITE
    ensures TailCode(atom, 0, max, greedy)
      == if max == INFINITE then StarCode(LoopBody(atom), greedy) else OptionCode(LoopBody(atom), greedy)
  {
  }

  lemma TailUpTo(atom: seq<Instr>, min: nat, max: nat, greedy: bool)
    requires min < max < INFINITE && (min > 0 || max > 1)
    ensures TailCode(atom, min, max, greedy) == UpToCode(LoopBody(atom), max - min, greedy)
  {
  }

  lemma TailIs(atom: seq<Instr>, min: nat, max: nat, greedy: bool)
    requires 0 < min <= max <= INFINITE
    ensures TailCode(atom, min, max, greedy) ==
      if max == INFINITE then StarCode(LoopBody(atom), greedy)
      else if max > min then UpToCode(LoopBody(atom), max - min, greedy) else []
  {
  }

  lemma PlusIs(atom: seq<Instr>, greedy: bool)
    ensures PlusCode(atom, greedy) == atom + [Instr.Split(!greedy, Behind(Len(atom) + 5))]
  {
  }

  lemma HeadIs(atom: seq<Instr>, min: u32, first: nat, groups: nat)
    requires min > 0 && first + groups <= 0x100
    ensures HeadCode(atom, min, first, groups) == if min == 1 then atom else TimesCode(atom, min)
  {
  }

  /** The atom inside the mandatory iterations. */
  lemma TimesSlice(prefix: seq<u8>, atom: seq<Instr>, n: u32)
    ensures var bytes := prefix + Assemble(TimesCode(atom, n)); var from := |prefix| + 5;
      from + Len(atom) <= |bytes| && bytes[from..from + Len(atom)] == Assemble(atom)
  {
    hide Assemble, Encode, Len;
    var push, rest := [Instr.PushI32(n)], [Instr.Loop(Behind(Len(atom) + 5)), Instr.Drop];
    AssembleThree(push, atom, rest);
    AssembleOne(Instr.PushI32(n));
    var pre := prefix + Encode(Instr.PushI32(n));
    assert prefix + Assemble(TimesCode(atom, n)) == pre + Assemble(atom) + Assemble(rest);
  }

  lemma SliceOfPrefix<T>(a: seq<T>, b: seq<T>, from: nat, len: nat)
    requires from + len <= |a|
    ensures (a + b)[from..from + len] == a[from..from + len]
  {
  }

  /** Appending leaves an earlier slice alone. */
  lemma KeepsSlice(was: seq<u8>, now: seq<u8>, from: nat, len: nat, prefix: seq<u8>, head: seq<Instr>, code: seq<Instr>)
    requires was == prefix + Assemble(head) && now == prefix + Assemble(code)
    requires |head| <= |code| && code[..|head|] == head && from + len <= |was|
    ensures from + len <= |now| && now[from..from + len] == was[from..from + len]
  {
    hide Assemble;
    var rest := code[|head|..];
    assert code == head + rest;
    AssembleConcat(head, rest);
    Joined(prefix, head, rest);
    SliceOfPrefix(was, Assemble(rest), from, len);
  }

  lemma GreedyBytes(prefix: seq<u8>, atom: seq<Instr>, min: u32, max: u32)
    ensures prefix + Assemble(GreedyCode(atom, min, max))
      == prefix + [28] + PutU32(ToU32(Len(atom) + 1)) + PutU32(min) + PutU32(max) + PutU32(ToU32(SimpleLen(atom)))
         + [] + (Assemble(atom) + [10])
  {
    hide Assemble, SimpleLen, Len, ToU32, PutU32;
    var i := Instr.SimpleGreedy(ToU32(Len(atom) + 1), min, max, ToU32(SimpleLen(atom)));
    AssembleThree([i], atom, [Instr.Match]);
    AssembleOne(i);
    AssembleOne(Instr.Match);
  }
}
