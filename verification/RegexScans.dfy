/** The loops of the compiler that scan emitted byte code, proved against the corresponding
    functions on the instruction sequence the bytes stand for. */
module RegexScans {
  import opened Bytes
  import opened RegexCode
  import opened RegexSyntax
  import opened RegexMachine
  import opened RegexDepth
  import opened RegexLoops
  import opened RegexTheorem
  import opened RegexAnalysis

  const STACK_SIZE_MAX: nat := 255

  /** The opcode byte of an instruction. */
  function Opcode(i: Instr): (op: u8) { Encode(i)[0] }

  /** The length found in the opcode table, without the operands of the two variable-length opcodes. */
  function TableSize(op: u8): (r: nat)
    requires OperandSize(op) >= 0
  {
    var n: int := OperandSize(op);
    1 + n
  }

  /** What the scanning loops read at an address: the opcode byte and the length of the instruction. */
  lemma FetchAgrees(buf: seq<u8>, pos: nat, i: Instr)
    requires Decode(buf, pos) == Some(i)
    ensures pos < |buf| && buf[pos] == Opcode(i) && OperandSize(buf[pos]) >= 0
    ensures pos + 3 <= |buf| || (buf[pos] != 21 && buf[pos] != 22)
    ensures Size(i) == TableSize(buf[pos])
      + (if buf[pos] == 21 then 4 * GetU16(buf, pos + 1) else if buf[pos] == 22 then 8 * GetU16(buf, pos + 1) else 0)
  {
  }

  lemma OpcodeClasses(i: Instr)
    ensures IsCharInstr(i) <==> Opcode(i) in {1, 2, 3, 4, 21, 22}
    ensures IsSimpleInstr(i) <==> Opcode(i) in {1, 2, 3, 4, 21, 22, 5, 6, 17, 18}
    ensures IsPredictable(i) <==> Opcode(i) in {1, 2, 3, 4, 21, 22, 5, 6, 17, 18, 15, 25, 16, 27, 11, 12, 13, 19, 20}
    ensures StackDelta(i) == if Opcode(i) in {15, 25} then 1 else if Opcode(i) in {16, 26} then -1 else 0
  {
  }

  /** The rest of the code still to be scanned. */
  lemma ScanStep(buf: seq<u8>, pos: nat, rest: seq<Instr>)
    requires CodeAt(buf, pos, rest) && pos + Len(rest) == |buf|
    ensures rest == [] <==> pos == |buf|
    ensures rest != [] ==>
      && Decode(buf, pos) == Some(rest[0]) && CodeAt(buf, pos + Size(rest[0]), rest[1..])
      && pos + Size(rest[0]) + Len(rest[1..]) == |buf|
  {
    hide Decode;
  }

  method ReIsSimpleQuantifier(buf: seq<u8>, ghost code: seq<Instr>) returns (count: int)
    requires CodeAt(buf, 0, code) && |buf| == Len(code)
    ensures count == SimpleLen(code)
  {
    hide Decode, CodeAt, Len, Opcode, Size, IsCharInstr, IsSimpleInstr, IsPredictable, StackDelta;
    var pos := 0;
    count := 0;
    ghost var rest := code;
    while pos < |buf|
      invariant CodeAt(buf, pos, rest) && pos + Len(rest) == |buf|
      invariant 0 <= count
      invariant SimpleLen(code) == if SimpleLen(rest) < 0 then -1 else count + SimpleLen(rest)
      decreases |buf| - pos
    {
      ScanStep(buf, pos, rest);
      FetchAgrees(buf, pos, rest[0]);
      OpcodeClasses(rest[0]);
      var op := buf[pos];
      var len := TableSize(op);
      if op in {1, 2, 3, 4, 21, 22} {
        if op == 21 {
          len := len + 4 * GetU16(buf, pos + 1);
        } else if op == 22 {
          len := len + 8 * GetU16(buf, pos + 1);
        }
        count := count + 1;
      } else if op !in {5, 6, 17, 18} {
        return -1;
      }
      pos := pos + len;
      rest := rest[1..];
    }
    ScanStep(buf, pos, rest);
  }

  method ReNeedCheckAdvance(buf: seq<u8>, ghost code: seq<Instr>) returns (ret: bool)
    requires CodeAt(buf, 0, code) && |buf| == Len(code)
    ensures ret == NeedCheckAdvance(code)
  {
    hide Decode, CodeAt, Len, Opcode, Size, IsCharInstr, IsSimpleInstr, IsPredictable, StackDelta;
    var pos := 0;
    ret := true;
    ghost var k := 0;
    while pos < |buf|
      invariant 0 <= k <= |code|
      invariant CodeAt(buf, pos, code[k..]) && pos + Len(code[k..]) == |buf|
      invariant forall j :: 0 <= j < k ==> IsPredictable(code[j])
      invariant ret <==> forall j :: 0 <= j < k ==> !IsCharInstr(code[j])
      decreases |buf| - pos
    {
      ScanStep(buf, pos, code[k..]);
      FetchAgrees(buf, pos, code[k]);
      OpcodeClasses(code[k]);
      assert code[k..][1..] == code[k + 1..];
      var op := buf[pos];
      var len := TableSize(op);
      if op in {1, 2, 3, 4, 21, 22} {
        if op == 21 {
          len := len + 4 * GetU16(buf, pos + 1);
        } else if op == 22 {
          len := len + 8 * GetU16(buf, pos + 1);
        }
        ret := false;
      } else if op !in {5, 6, 17, 18, 15, 25, 16, 27, 11, 12, 13, 19, 20} {
        return true;
      }
      pos := pos + len;
      k := k + 1;
    }
    ScanStep(buf, pos, code[k..]);
  }

  lemma {:induction false} MaxDepthMonotone(code: seq<Instr>, d: int, max: nat)
    ensures max <= MaxDepth(code, d, max)
    decreases |code|
  {
  }

  /** The stack size for the header; -1 when it does not fit. */
  method ComputeStackSize(buf: seq<u8>, ghost code: seq<Instr>) returns (r: int)
    requires CodeAt(buf, 0, code) && |buf| == Len(code) && Balanced(code)
    ensures r == if MaxDepth(code, 0, 0) > 255 then -1 else MaxDepth(code, 0, 0)
  {
    hide Decode, CodeAt, Len, Opcode, Size, IsCharInstr, IsSimpleInstr, IsPredictable, StackDelta;
    var pos := 0;
    var stackSize := 0;
    r := 0;
    ghost var rest := code;
    while pos < |buf|
      invariant CodeAt(buf, pos, rest) && pos + Len(rest) == |buf|
      invariant 0 <= stackSize <= r <= STACK_SIZE_MAX
      invariant MaxDepth(code, 0, 0) == MaxDepth(rest, stackSize, r)
      invariant DepthAfter(rest, stackSize) == DepthAfter(code, 0)
      decreases |buf| - pos
    {
      ScanStep(buf, pos, rest);
      FetchAgrees(buf, pos, rest[0]);
      OpcodeClasses(rest[0]);
      var op := buf[pos];
      var len := TableSize(op);
      if op == 15 || op == 25 {
        stackSize := stackSize + 1;
        if stackSize > r {
          if stackSize > STACK_SIZE_MAX {
            MaxDepthMonotone(rest[1..], stackSize, stackSize);
            return -1;
          }
          r := stackSize;
        }
      } else if op == 16 || op == 26 {
        assert stackSize > 0;
        stackSize := stackSize - 1;
      } else if op == 21 {
        len := len + 4 * GetU16(buf, pos + 1);
      } else if op == 22 {
        len := len + 8 * GetU16(buf, pos + 1);
      }
      pos := pos + len;
      rest := rest[1..];
    }
    ScanStep(buf, pos, rest);
  }
}
