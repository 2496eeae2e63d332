/** The instruction set of the regular-expression virtual machine and its byte encoding. */
module RegexCode {
  import opened Bytes

  datatype Option<+T> = None | Some(value: T)

  /** One instruction with its operands. Jump operands are the raw unsigned 32-bit values
      stored in the byte code; they count from the end of the instruction. */
  datatype Instr =
    | Char(c: u16)
    | Char32(c32: u32)
    | Dot
    | Any
    | LineStart
    | LineEnd
    | Goto(off: u32)
    | Split(nextFirst: bool, off: u32)
    | Match
    | Save(end: bool, idx: u8)
    | SaveReset(first: u8, last: u8)
    | Loop(off: u32)
    | PushI32(v: u32)
    | Drop
    | WordBoundary(negated: bool)
    | BackRef(backward: bool, idx: u8)
    | Range(pairs: seq<(u16, u16)>)
    | Range32(pairs32: seq<(u32, u32)>)
    | Look(neg: bool, off: u32)
    | PushCharPos
    | CheckAdvance
    | Prev
    | SimpleGreedy(next: u32, min: u32, max: u32, len: u32)

  ghost predicate WellFormed(i: Instr) {
    && (i.Range? ==> |i.pairs| < 0x1_0000)
    && (i.Range32? ==> |i.pairs32| < 0x1_0000)
  }

  function PutPairs16(ps: seq<(u16, u16)>): (r: seq<u8>)
    ensures |r| == 4 * |ps|
  {
    if ps == [] then [] else PutU16(ps[0].0) + PutU16(ps[0].1) + PutPairs16(ps[1..])
  }

  function PutPairs32(ps: seq<(u32, u32)>): (r: seq<u8>)
    ensures |r| == 8 * |ps|
  {
    if ps == [] then [] else PutU32(ps[0].0) + PutU32(ps[0].1) + PutPairs32(ps[1..])
  }

  function GetPairs16(bc: seq<u8>, pos: nat, n: nat): (r: seq<(u16, u16)>)
    requires pos + 4 * n <= |bc|
    ensures |r| == n
    decreases n
  {
    if n == 0 then [] else [(GetU16(bc, pos), GetU16(bc, pos + 2))] + GetPairs16(bc, pos + 4, n - 1)
  }

  function GetPairs32(bc: seq<u8>, pos: nat, n: nat): (r: seq<(u32, u32)>)
    requires pos + 8 * n <= |bc|
    ensures |r| == n
    decreases n
  {
    if n == 0 then [] else [(GetU32(bc, pos), GetU32(bc, pos + 4))] + GetPairs32(bc, pos + 8, n - 1)
  }

  function Bit(b: bool): (r: u8) { if b then 1 else 0 }

  function Encode(i: Instr): (r: seq<u8>)
    ensures |r| == Size(i)
  {
    match i
    case Char(c) => [1] + PutU16(c)
    case Char32(c) => [2] + PutU32(c)
    case Dot => [3]
    case Any => [4]
    case LineStart => [5]
    case LineEnd => [6]
    case Goto(off) => [7] + PutU32(off)
    case Split(nextFirst, off) => [8 + Bit(nextFirst)] + PutU32(off)
    case Match => [10]
    case Save(end, idx) => [11 + Bit(end), idx]
    case SaveReset(first, last) => [13, first, last]
    case Loop(off) => [14] + PutU32(off)
    case PushI32(v) => [15] + PutU32(v)
    case Drop => [16]
    case WordBoundary(negated) => [17 + Bit(negated)]
    case BackRef(backward, idx) => [19 + Bit(backward), idx]
    case Range(ps) => [21] + PutU16(|ps| % 0x1_0000) + PutPairs16(ps)
    case Range32(ps) => [22] + PutU16(|ps| % 0x1_0000) + PutPairs32(ps)
    case Look(neg, off) => [23 + Bit(neg)] + PutU32(off)
    case PushCharPos => [25]
    case CheckAdvance => [26]
    case Prev => [27]
    case SimpleGreedy(next, min, max, len) => [28] + PutU32(next) + PutU32(min) + PutU32(max) + PutU32(len)
  }

  /** The instruction lengths of the opcode table. */
  function Size(i: Instr): (r: nat)
  {
    match i
    case Char(_) => 3
    case Dot | Any | LineStart | LineEnd | Match | Drop | WordBoundary(_) | PushCharPos | CheckAdvance | Prev => 1
    case Save(_, _) | BackRef(_, _) => 2
    case SaveReset(_, _) => 3
    case Char32(_) | Goto(_) | Split(_, _) | Loop(_) | PushI32(_) | Look(_, _) => 5
    case Range(ps) => 3 + 4 * |ps|
    case Range32(ps) => 3 + 8 * |ps|
    case SimpleGreedy(_, _, _, _) => 17
  }

  /** The number of operand bytes of a fixed-length opcode; -1 for an opcode that does not exist. */
  function OperandSize(op: u8): (r: int) {
    if op == 1 || op == 13 || op == 21 || op == 22 then 2
    else if op == 2 || 7 <= op <= 9 || op == 14 || op == 15 || op == 23 || op == 24 then 4
    else if 3 <= op <= 6 || op == 10 || 16 <= op <= 18 || 25 <= op <= 27 then 0
    else if op == 11 || op == 12 || op == 19 || op == 20 then 1
    else if op == 28 then 16
    else -1
  }

  /** What the machine fetches at `pc`; None when there is no such opcode or the code is cut short. */
  function Decode(bc: seq<u8>, pc: nat): (r: Option<Instr>)
    ensures r.Some? ==> pc + Size(r.value) <= |bc|
  {
    if pc >= |bc| then None else
    var op := bc[pc];
    if OperandSize(op) < 0 || pc + 1 + OperandSize(op) > |bc| then None else
    if op == 1 then Some(Char(GetU16(bc, pc + 1)))
    else if op == 2 then Some(Char32(GetU32(bc, pc + 1)))
    else if op == 3 then Some(Dot)
    else if op == 4 then Some(Any)
    else if op == 5 then Some(LineStart)
    else if op == 6 then Some(LineEnd)
    else if op == 7 then Some(Goto(GetU32(bc, pc + 1)))
    else if op == 8 || op == 9 then Some(Split(op == 9, GetU32(bc, pc + 1)))
    else if op == 10 then Some(Match)
    else if op == 11 || op == 12 then Some(Save(op == 12, bc[pc + 1]))
    else if op == 13 then Some(SaveReset(bc[pc + 1], bc[pc + 2]))
    else if op == 14 then Some(Loop(GetU32(bc, pc + 1)))
    else if op == 15 then Some(PushI32(GetU32(bc, pc + 1)))
    else if op == 16 then Some(Drop)
    else if op == 17 || op == 18 then Some(WordBoundary(op == 18))
    else if op == 19 || op == 20 then Some(BackRef(op == 20, bc[pc + 1]))
    else if op == 21 then
      var n := GetU16(bc, pc + 1);
      if pc + 3 + 4 * n > |bc| then None else Some(Range(GetPairs16(bc, pc + 3, n)))
    else if op == 22 then
      var n := GetU16(bc, pc + 1);
      if pc + 3 + 8 * n > |bc| then None else Some(Range32(GetPairs32(bc, pc + 3, n)))
    else if op == 23 || op == 24 then Some(Look(op == 24, GetU32(bc, pc + 1)))
    else if op == 25 then Some(PushCharPos)
    else if op == 26 then Some(CheckAdvance)
    else if op == 27 then Some(Prev)
    else Some(SimpleGreedy(GetU32(bc, pc + 1), GetU32(bc, pc + 5), GetU32(bc, pc + 9), GetU32(bc, pc + 13)))
  }

  lemma {:induction false} Pairs16RoundTrip(bc: seq<u8>, pos: nat, ps: seq<(u16, u16)>)
    requires pos + 4 * |ps| <= |bc| && bc[pos..pos + 4 * |ps|] == PutPairs16(ps)
    ensures GetPairs16(bc, pos, |ps|) == ps
    decreases |ps|
  {
    if ps != [] {
      var end := pos + 4 * |ps|;
      SliceOfSlice(bc, pos, end, 0, 2);
      SliceOfSlice(bc, pos, end, 2, 4);
      SliceOfSlice(bc, pos, end, 4, 4 * |ps|);
      ConcatSlices(PutU16(ps[0].0), PutU16(ps[0].1), PutPairs16(ps[1..]));
      U16RoundTrip(bc, pos, ps[0].0);
      U16RoundTrip(bc, pos + 2, ps[0].1);
      Pairs16RoundTrip(bc, pos + 4, ps[1..]);
      assert ps == [ps[0]] + ps[1..];
    }
  }

  lemma {:induction false} Pairs32RoundTrip(bc: seq<u8>, pos: nat, ps: seq<(u32, u32)>)
    requires pos + 8 * |ps| <= |bc| && bc[pos..pos + 8 * |ps|] == PutPairs32(ps)
    ensures GetPairs32(bc, pos, |ps|) == ps
    decreases |ps|
  {
    if ps != [] {
      var end := pos + 8 * |ps|;
      SliceOfSlice(bc, pos, end, 0, 4);
      SliceOfSlice(bc, pos, end, 4, 8);
      SliceOfSlice(bc, pos, end, 8, 8 * |ps|);
      ConcatSlices(PutU32(ps[0].0), PutU32(ps[0].1), PutPairs32(ps[1..]));
      U32RoundTrip(bc, pos, ps[0].0);
      U32RoundTrip(bc, pos + 4, ps[0].1);
      Pairs32RoundTrip(bc, pos + 8, ps[1..]);
      assert ps == [ps[0]] + ps[1..];
    }
  }

  lemma ConcatSlices<T>(a: seq<T>, b: seq<T>, c: seq<T>)
    ensures (a + b + c)[..|a|] == a
    ensures (a + b + c)[|a|..|a| + |b|] == b
    ensures (a + b + c)[|a| + |b|..] == c
  {
  }

  /** Decoding undoes encoding, wherever the instruction sits. */
  lemma DecodeEncode(bc: seq<u8>, pc: nat, i: Instr)
    requires WellFormed(i)
    requires pc + Size(i) <= |bc| && bc[pc..pc + Size(i)] == Encode(i)
    ensures Decode(bc, pc) == Some(i)
  {
    var e := Encode(i);
    assert bc[pc] == bc[pc..pc + Size(i)][0] == e[0];
    match i
    case Char(c) =>
      SliceOfSlice(bc, pc, pc + 3, 1, 3);
      assert e[1..3] == PutU16(c);
      U16RoundTrip(bc, pc + 1, c);
    case Char32(v) => Operand32(bc, pc, e, v);
    case Goto(v) => Operand32(bc, pc, e, v);
    case Split(_, v) => Operand32(bc, pc, e, v);
    case Loop(v) => Operand32(bc, pc, e, v);
    case PushI32(v) => Operand32(bc, pc, e, v);
    case Look(_, v) => Operand32(bc, pc, e, v);
    case Save(_, _) => assert bc[pc + 1] == e[1];
    case BackRef(_, _) => assert bc[pc + 1] == e[1];
    case SaveReset(_, _) => assert bc[pc + 1] == e[1] && bc[pc + 2] == e[2];
    case Range(ps) => DecodeRange(bc, pc, ps);
    case Range32(ps) => DecodeRange32(bc, pc, ps);
    case SimpleGreedy(a, b, c, d) => DecodeGreedy(bc, pc, a, b, c, d);
    case _ =>
  }

  lemma Operand32(bc: seq<u8>, pc: nat, e: seq<u8>, v: u32)
    requires pc + 5 <= |bc| && e == bc[pc..pc + 5] && e[1..] == PutU32(v)
    ensures GetU32(bc, pc + 1) == v
  {
    SliceOfSlice(bc, pc, pc + 5, 1, 5);
    U32RoundTrip(bc, pc + 1, v);
  }

  lemma DecodeRange(bc: seq<u8>, pc: nat, ps: seq<(u16, u16)>)
    requires |ps| < 0x1_0000
    requires pc + 3 + 4 * |ps| <= |bc| && bc[pc..pc + 3 + 4 * |ps|] == Encode(Range(ps))
    ensures Decode(bc, pc) == Some(Range(ps))
  {
    var end := 3 + 4 * |ps|;
    ConcatSlices([21], PutU16(|ps|), PutPairs16(ps));
    SliceOfSlice(bc, pc, pc + end, 0, 1);
    SliceOfSlice(bc, pc, pc + end, 1, 3);
    SliceOfSlice(bc, pc, pc + end, 3, end);
    assert bc[pc] == bc[pc..pc + 1][0];
    U16RoundTrip(bc, pc + 1, |ps|);
    Pairs16RoundTrip(bc, pc + 3, ps);
  }

  lemma DecodeRange32(bc: seq<u8>, pc: nat, ps: seq<(u32, u32)>)
    requires |ps| < 0x1_0000
    requires pc + 3 + 8 * |ps| <= |bc| && bc[pc..pc + 3 + 8 * |ps|] == Encode(Range32(ps))
    ensures Decode(bc, pc) == Some(Range32(ps))
  {
    hide Decode, PutPairs32, GetPairs32, PutU16, GetU16;
    var end := 3 + 8 * |ps|;
    ConcatSlices([22], PutU16(|ps|), PutPairs32(ps));
    SliceOfSlice(bc, pc, pc + end, 0, 1);
    SliceOfSlice(bc, pc, pc + end, 1, 3);
    SliceOfSlice(bc, pc, pc + end, 3, end);
    assert bc[pc] == bc[pc..pc + 1][0];
    U16RoundTrip(bc, pc + 1, |ps|);
    Pairs32RoundTrip(bc, pc + 3, ps);
    DecodeOp22(bc, pc, ps);
  }

  lemma DecodeOp22(bc: seq<u8>, pc: nat, ps: seq<(u32, u32)>)
    requires pc + 3 + 8 * |ps| <= |bc| && bc[pc] == 22
    requires GetU16(bc, pc + 1) == |ps| && GetPairs32(bc, pc + 3, |ps|) == ps
    ensures Decode(bc, pc) == Some(Range32(ps))
  {
    hide GetPairs32, GetU16, GetU32;
  }

  lemma DecodeGreedy(bc: seq<u8>, pc: nat, a: u32, b: u32, c: u32, d: u32)
    requires pc + 17 <= |bc| && bc[pc..pc + 17] == Encode(SimpleGreedy(a, b, c, d))
    ensures Decode(bc, pc) == Some(SimpleGreedy(a, b, c, d))
  {
    var e := Encode(SimpleGreedy(a, b, c, d));
    SliceOfSlice(bc, pc, pc + 17, 1, 5);
    SliceOfSlice(bc, pc, pc + 17, 5, 9);
    SliceOfSlice(bc, pc, pc + 17, 9, 13);
    SliceOfSlice(bc, pc, pc + 17, 13, 17);
    assert e[1..5] == PutU32(a) && e[5..9] == PutU32(b) && e[9..13] == PutU32(c) && e[13..17] == PutU32(d);
    assert bc[pc] == e[0];
    U32RoundTrip(bc, pc + 1, a);
    U32RoundTrip(bc, pc + 5, b);
    U32RoundTrip(bc, pc + 9, c);
    U32RoundTrip(bc, pc + 13, d);
  }

  /** The bytes of an instruction sequence. */
  function Assemble(code: seq<Instr>): (r: seq<u8>)
    ensures |r| == Len(code)
  {
    if code == [] then [] else Encode(code[0]) + Assemble(code[1..])
  }

  function Len(code: seq<Instr>): (r: nat)
  {
    if code == [] then 0 else Size(code[0]) + Len(code[1..])
  }

  lemma {:induction false} LenConcat(a: seq<Instr>, b: seq<Instr>)
    ensures Len(a + b) == Len(a) + Len(b)
    decreases |a|
  {
    if a == [] {
      assert a + b == b;
    } else {
      assert (a + b)[1..] == a[1..] + b;
      LenConcat(a[1..], b);
    }
  }

  lemma {:induction false} AssembleConcat(a: seq<Instr>, b: seq<Instr>)
    ensures Assemble(a + b) == Assemble(a) + Assemble(b)
    decreases |a|
  {
    if a == [] {
      assert a + b == b;
    } else {
      assert (a + b)[1..] == a[1..] + b;
      AssembleConcat(a[1..], b);
    }
  }

  /** The instructions `code` are what the machine decodes one after the other from `pc`. */
  ghost predicate CodeAt(bc: seq<u8>, pc: nat, code: seq<Instr>)
    decreases |code|
  {
    if code == [] then pc <= |bc|
    else Decode(bc, pc) == Some(code[0]) && CodeAt(bc, pc + Size(code[0]), code[1..])
  }

  lemma {:induction false} CodeAtConcat(bc: seq<u8>, pc: nat, a: seq<Instr>, b: seq<Instr>)
    requires CodeAt(bc, pc, a + b)
    ensures CodeAt(bc, pc, a) && CodeAt(bc, pc + Len(a), b)
    decreases |a|
  {
    if a == [] {
      assert a + b == b;
      CodeAtInBounds(bc, pc, b);
    } else {
      assert (a + b)[1..] == a[1..] + b;
      CodeAtConcat(bc, pc + Size(a[0]), a[1..], b);
    }
  }

  lemma {:induction false} CodeAtInBounds(bc: seq<u8>, pc: nat, code: seq<Instr>)
    requires CodeAt(bc, pc, code)
    ensures pc + Len(code) <= |bc|
    decreases |code|
  {
    if code != [] {
      CodeAtInBounds(bc, pc + Size(code[0]), code[1..]);
    }
  }

  ghost predicate AllWellFormed(code: seq<Instr>) {
    forall k :: 0 <= k < |code| ==> WellFormed(code[k])
  }

  /** Assembled code placed anywhere in a buffer decodes back to the instructions. */
  lemma {:induction false} AssembledCodeAt(bc: seq<u8>, pc: nat, code: seq<Instr>)
    requires AllWellFormed(code)
    requires pc + Len(code) <= |bc| && bc[pc..pc + Len(code)] == Assemble(code)
    ensures CodeAt(bc, pc, code)
    decreases |code|
  {
    hide Decode, Encode, Size, WellFormed;
    if code != [] {
      var n := Size(code[0]);
      SplitSlice(bc, pc, Encode(code[0]), Assemble(code[1..]));
      DecodeEncode(bc, pc, code[0]);
      AssembledCodeAt(bc, pc + n, code[1..]);
    }
  }

  lemma SplitSlice<T>(s: seq<T>, pos: nat, a: seq<T>, b: seq<T>)
    requires pos + |a| + |b| <= |s| && s[pos..pos + |a| + |b|] == a + b
    ensures s[pos..pos + |a|] == a && s[pos + |a|..pos + |a| + |b|] == b
  {
    SliceOfSlice(s, pos, pos + |a| + |b|, 0, |a|);
    SliceOfSlice(s, pos, pos + |a| + |b|, |a|, |a| + |b|);
  }
}
