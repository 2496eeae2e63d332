/** Pattern syntax trees and the instruction sequence the compiler produces for each. */
module RegexSyntax {
  import opened Bytes
  import opened RegexCode
  import opened RegexText
  import opened CharSets

  /** `max == INFINITE` stands for an unbounded quantifier. */
  const INFINITE: nat := 0x7fff_ffff

  datatype Node =
    | Empty
    | Char(c: codepoint)
    | AnyChar
    | Class(points: seq<u32>)
    | LineStart
    | LineEnd
    | WordBoundary(negated: bool)
    | Cat(first: Node, second: Node)
    | Alt(left: Node, right: Node)
    | Capture(body: Node)
    | BackRef(idx: u8)
    | Look(body: Node, neg: bool, behind: bool)
    | Quant(atom: Node, min: nat, max: nat, greedy: bool)

  /** The flags the compiler and the machine read, and the case folding of characters. */
  datatype Flags = Flags(multiLine: bool, dotAll: bool, ignoreCase: bool, canon: codepoint -> codepoint)

  function Fold(f: Flags, c: codepoint): (r: codepoint) {
    if f.ignoreCase then f.canon(c) else c
  }

  /** The number of capture groups of a pattern. */
  function Groups(n: Node): (r: nat) {
    match n
    case Cat(a, b) => Groups(a) + Groups(b)
    case Alt(a, b) => Groups(a) + Groups(b)
    case Capture(a) => 1 + Groups(a)
    case Look(a, _, _) => Groups(a)
    case Quant(a, _, _, _) => Groups(a)
    case _ => 0
  }

  /** The number of nodes of a tree. */
  function Nodes(n: Node): (r: nat)
    ensures r > 0
  {
    match n
    case Cat(a, b) => 1 + Nodes(a) + Nodes(b)
    case Alt(a, b) => 1 + Nodes(a) + Nodes(b)
    case Capture(a) => 1 + Nodes(a)
    case Look(a, _, _) => 1 + Nodes(a)
    case Quant(a, _, _, _) => 1 + Nodes(a)
    case _ => 1
  }

  /** What the parser guarantees of a tree. */
  ghost predicate ValidNode(n: Node) {
    match n
    case Class(points) => Normal(points) && |points| / 2 < 65535
    case Cat(a, b) => ValidNode(a) && ValidNode(b)
    case Alt(a, b) => ValidNode(a) && ValidNode(b)
    case Capture(a) => ValidNode(a)
    case Look(a, _, _) => ValidNode(a)
    case Quant(a, min, max, _) => ValidNode(a) && min <= max <= INFINITE
    case _ => true
  }

  /** What the parser guarantees of a tree before the classes are emitted. */
  ghost predicate WellParsed(n: Node) {
    match n
    case Class(points) => Normal(points)
    case Cat(a, b) => WellParsed(a) && WellParsed(b)
    case Alt(a, b) => WellParsed(a) && WellParsed(b)
    case Capture(a) => WellParsed(a)
    case Look(a, _, _) => WellParsed(a)
    case Quant(a, min, max, _) => WellParsed(a) && min <= max <= INFINITE
    case _ => true
  }

  /** No class has too many ranges for the 16-bit count of a range instruction. */
  predicate ClassesFit(n: Node) {
    match n
    case Class(points) => |points| / 2 < 65535
    case Cat(a, b) => ClassesFit(a) && ClassesFit(b)
    case Alt(a, b) => ClassesFit(a) && ClassesFit(b)
    case Capture(a) => ClassesFit(a)
    case Look(a, _, _) => ClassesFit(a)
    case Quant(a, _, _, _) => ClassesFit(a)
    case _ => true
  }

  lemma {:induction false} ValidMeaning(n: Node)
    ensures ValidNode(n) <==> WellParsed(n) && ClassesFit(n)
  {
    match n
    case Cat(a, b) => ValidMeaning(a); ValidMeaning(b);
    case Alt(a, b) => ValidMeaning(a); ValidMeaning(b);
    case Capture(a) => ValidMeaning(a);
    case Look(a, _, _) => ValidMeaning(a);
    case Quant(a, _, _, _) => ValidMeaning(a);
    case _ =>
  }

  // ---- the emitted instructions ----

  /** Backward matching steps back, tests the character, and steps back again. */
  function CharCode(back: bool, i: Instr): (r: seq<Instr>) {
    if back then [Instr.Prev, i, Instr.Prev] else [i]
  }

  function LiteralInstr(c: codepoint): (r: Instr) {
    if c <= 0xffff then Instr.Char(c) else Instr.Char32(c)
  }

  function High16(v: u32): (r: u16) {
    if v == UINT32_MAX then 0xffff else (v - 1) % 0x1_0000
  }

  /** The last bound that decides between 16- and 32-bit ranges. */
  function LastBound(points: seq<u32>): (r: u32)
    requires |points| >= 2
  {
    if points[|points| - 1] == UINT32_MAX then points[|points| - 2] else points[|points| - 1]
  }

  function ClassInstr(points: seq<u32>): (r: Instr) {
    var n := |points| / 2;
    if n == 0 then Instr.Char32(UINT32_MAX)
    else if LastBound(points) <= 0xffff then
      Instr.Range(seq(n, i requires 0 <= i < n => (points[2 * i] % 0x1_0000, High16(points[2 * i + 1]))))
    else
      Instr.Range32(seq(n, i requires 0 <= i < n => (points[2 * i], var v: int := points[2 * i + 1]; ToU32(v - 1))))
  }

  /** An instruction that consumes one character. */
  predicate IsCharInstr(i: Instr) {
    i.Char? || i.Char32? || i.Dot? || i.Any? || i.Range? || i.Range32?
  }

  predicate IsSimpleInstr(i: Instr) {
    IsCharInstr(i) || i.LineStart? || i.LineEnd? || i.WordBoundary?
  }

  /** The number of characters consumed by code made of simple instructions only; -1 for other code. */
  function SimpleLen(code: seq<Instr>): (r: int)
    ensures -1 <= r
  {
    if code == [] then 0
    else if !IsSimpleInstr(code[0]) || SimpleLen(code[1..]) < 0 then -1
    else SimpleLen(code[1..]) + if IsCharInstr(code[0]) then 1 else 0
  }

  /** Instructions whose effect on the position the advance analysis can predict. */
  predicate IsPredictable(i: Instr) {
    IsSimpleInstr(i) || i.PushI32? || i.PushCharPos? || i.Drop? || i.Prev? || i.Save? || i.SaveReset? || i.BackRef?
  }

  /** The code may leave the position unchanged, as far as the advance analysis can tell. */
  predicate NeedCheckAdvance(code: seq<Instr>) {
    (exists k :: 0 <= k < |code| && !IsPredictable(code[k]))
    || (forall k :: 0 <= k < |code| ==> !IsCharInstr(code[k]))
  }

  /** The body of a loop: the atom, between the two advance-check instructions if they are needed. */
  function LoopBody(atom: seq<Instr>): (r: seq<Instr>) {
    if NeedCheckAdvance(atom) then [Instr.PushCharPos] + atom + [Instr.CheckAdvance] else atom
  }

  /** `split; body; goto split`, for an unbounded number of optional iterations. */
  function StarCode(body: seq<Instr>, greedy: bool): (r: seq<Instr>) {
    [Instr.Split(greedy, ToU32(Len(body) + 5))] + body + [Instr.Goto(Behind(Len(body) + 10))]
  }

  /** `split; body`, for one optional iteration. */
  function OptionCode(body: seq<Instr>, greedy: bool): (r: seq<Instr>) {
    [Instr.Split(greedy, ToU32(Len(body)))] + body
  }

  /** `push k; split; body; loop split; drop`, for at most `k` optional iterations. */
  function UpToCode(body: seq<Instr>, k: u32, greedy: bool): (r: seq<Instr>) {
    [Instr.PushI32(k), Instr.Split(greedy, ToU32(Len(body) + 5))] + body
    + [Instr.Loop(Behind(Len(body) + 10)), Instr.Drop]
  }

  /** `push n; atom; loop atom; drop`, for exactly `n` iterations. */
  function TimesCode(atom: seq<Instr>, n: u32): (r: seq<Instr>) {
    [Instr.PushI32(n)] + atom + [Instr.Loop(Behind(Len(atom) + 5)), Instr.Drop]
  }

  /** `atom; split atom`, for one or more iterations of an atom that always advances. */
  function PlusCode(atom: seq<Instr>, greedy: bool): (r: seq<Instr>) {
    atom + [Instr.Split(!greedy, Behind(Len(atom) + 5))]
  }

  function GreedyCode(atom: seq<Instr>, min: u32, max: u32): (r: seq<Instr>) {
    [Instr.SimpleGreedy(ToU32(Len(atom) + 1), min, max, ToU32(SimpleLen(atom)))] + atom + [Instr.Match]
  }

  /** The emission for a quantifier. `first` is the number of the atom's first capture group,
      `groups` how many it has. */
  function QuantCode(atom: seq<Instr>, min: nat, max: nat, greedy: bool, first: nat, groups: nat): (r: seq<Instr>)
    requires min <= max <= INFINITE
    requires first + groups <= 0x100
  {
    if greedy && max > 0 && SimpleLen(atom) > 0 then GreedyCode(atom, min, max)
    else if min == 0 then
      (if groups > 0 then [Instr.SaveReset(first, first + groups - 1)] else [])
      + (if max == 0 then []
         else if max == 1 then OptionCode(LoopBody(atom), greedy)
         else if max == INFINITE then StarCode(LoopBody(atom), greedy)
         else UpToCode(LoopBody(atom), max, greedy))
    else if min == 1 && max == INFINITE && !NeedCheckAdvance(atom) then PlusCode(atom, greedy)
    else
      (if min == 1 then atom else TimesCode(atom, min))
      + (if max == INFINITE then StarCode(LoopBody(atom), greedy)
         else if max > min then UpToCode(LoopBody(atom), max - min, greedy)
         else [])
  }

  /** Two alternatives, tried in order. */
  function AltCode(ca: seq<Instr>, cb: seq<Instr>): (r: seq<Instr>) {
    [Instr.Split(true, ToU32(Len(ca) + 5))] + ca + [Instr.Goto(ToU32(Len(cb)))] + cb
  }

  /** The code of a pattern whose first capture group has number `cc`, matched in the direction `back`. */
  function Code(f: Flags, n: Node, back: bool, cc: nat): (r: seq<Instr>)
    requires ValidNode(n) && cc + Groups(n) <= 0x100
  {
    match n
    case Empty => []
    case Char(c) => CharCode(back, LiteralInstr(Fold(f, c)))
    case AnyChar => CharCode(back, if f.dotAll then Instr.Any else Instr.Dot)
    case Class(points) => CharCode(back, ClassInstr(points))
    case LineStart => [Instr.LineStart]
    case LineEnd => [Instr.LineEnd]
    case WordBoundary(negated) => [Instr.WordBoundary(negated)]
    case Cat(a, b) =>
      var ca := Code(f, a, back, cc);
      var cb := Code(f, b, back, cc + Groups(a));
      if back then cb + ca else ca + cb
    case Alt(a, b) =>
      var ca := Code(f, a, back, cc);
      var cb := Code(f, b, back, cc + Groups(a));
      AltCode(ca, cb)
    case Capture(a) => [Instr.Save(back, cc)] + Code(f, a, back, cc + 1) + [Instr.Save(!back, cc)]
    case BackRef(idx) => [Instr.BackRef(back, idx)]
    case Look(a, neg, behind) =>
      var ca := Code(f, a, behind, cc);
      [Instr.Look(neg, ToU32(Len(ca) + 1))] + ca + [Instr.Match]
    case Quant(a, min, max, greedy) => QuantCode(Code(f, a, back, cc), min, max, greedy, cc, Groups(a))
  }

  /** The prefix of a pattern that is not sticky: try the next start position after this one. */
  function SearchCode(): (r: seq<Instr>) {
    [Instr.Split(false, 6), Instr.Any, Instr.Goto(Behind(11))]
  }

  /** The whole program; capture 0 is the match itself. */
  function ProgramCode(f: Flags, n: Node, sticky: bool): (r: seq<Instr>)
    requires ValidNode(n) && 1 + Groups(n) <= 0x100
  {
    (if sticky then [] else SearchCode())
    + [Instr.Save(false, 0)] + Code(f, n, false, 1) + [Instr.Save(true, 0), Instr.Match]
  }

  // ---- every emitted instruction can be encoded ----

  lemma WellFormedConcat(a: seq<Instr>, b: seq<Instr>)
    requires AllWellFormed(a) && AllWellFormed(b)
    ensures AllWellFormed(a + b)
  {
  }

  lemma LoopBodyWellFormed(atom: seq<Instr>)
    requires AllWellFormed(atom)
    ensures AllWellFormed(LoopBody(atom))
  {
  }

  lemma ShapesWellFormed(body: seq<Instr>, k: u32, greedy: bool)
    requires AllWellFormed(body)
    ensures AllWellFormed(OptionCode(body, greedy)) && AllWellFormed(StarCode(body, greedy))
    ensures AllWellFormed(UpToCode(body, k, greedy)) && AllWellFormed(TimesCode(body, k))
    ensures AllWellFormed(PlusCode(body, greedy))
  {
    hide Len, ToU32, Behind;
  }

  lemma GreedyWellFormed(atom: seq<Instr>, min: u32, max: u32)
    requires AllWellFormed(atom)
    ensures AllWellFormed(GreedyCode(atom, min, max))
  {
    hide Len, ToU32, SimpleLen;
  }

  lemma ResetWellFormed(first: u8, last: u8)
    ensures AllWellFormed([Instr.SaveReset(first, last)]) && AllWellFormed([])
  {
  }

  lemma QuantCodeWellFormed(atom: seq<Instr>, min: nat, max: nat, greedy: bool, first: nat, groups: nat)
    requires min <= max <= INFINITE && first + groups <= 0x100
    requires AllWellFormed(atom)
    ensures AllWellFormed(QuantCode(atom, min, max, greedy, first, groups))
  {
    hide AllWellFormed, LoopBody, OptionCode, StarCode, UpToCode, TimesCode, PlusCode, GreedyCode, SimpleLen,
      NeedCheckAdvance;
    LoopBodyWellFormed(atom);
    var body := LoopBody(atom);
    ShapesWellFormed(body, max, greedy);
    ShapesWellFormed(body, max - min, greedy);
    ShapesWellFormed(atom, min, greedy);
    GreedyWellFormed(atom, min, max);
    ResetWellFormed(0, 0);
    if groups > 0 {
      ResetWellFormed(first, first + groups - 1);
    }
    var tail := if max == INFINITE then StarCode(body, greedy)
                else if min == 0 then
                  (if max == 0 then [] else if max == 1 then OptionCode(body, greedy) else UpToCode(body, max, greedy))
                else if max > min then UpToCode(body, max - min, greedy) else [];
    if min == 0 {
      WellFormedConcat(if groups > 0 then [Instr.SaveReset(first, first + groups - 1)] else [], tail);
    } else {
      WellFormedConcat(if min == 1 then atom else TimesCode(atom, min), tail);
    }
  }

  lemma {:induction false} CodeWellFormed(f: Flags, n: Node, back: bool, cc: nat)
    requires ValidNode(n) && cc + Groups(n) <= 0x100
    ensures AllWellFormed(Code(f, n, back, cc))
  {
    hide AllWellFormed, WellFormed, QuantCode, ClassInstr, CharCode, Normal, Len, ToU32, Behind;
    match n
    case Char(c) => CharCodeWellFormed(back, LiteralInstr(Fold(f, c)), n);
    case AnyChar => CharCodeWellFormed(back, if f.dotAll then Instr.Any else Instr.Dot, n);
    case Class(points) => CharCodeWellFormed(back, ClassInstr(points), n);
    case Empty => NoOperandWellFormed([]);
    case LineStart => NoOperandWellFormed([Instr.LineStart]);
    case LineEnd => NoOperandWellFormed([Instr.LineEnd]);
    case WordBoundary(negated) => NoOperandWellFormed([Instr.WordBoundary(negated)]);
    case BackRef(idx) => NoOperandWellFormed([Instr.BackRef(back, idx)]);
    case Cat(a, b) =>
      CodeWellFormed(f, a, back, cc);
      CodeWellFormed(f, b, back, cc + Groups(a));
      WellFormedConcat(Code(f, a, back, cc), Code(f, b, back, cc + Groups(a)));
      WellFormedConcat(Code(f, b, back, cc + Groups(a)), Code(f, a, back, cc));
    case Alt(a, b) =>
      CodeWellFormed(f, a, back, cc);
      CodeWellFormed(f, b, back, cc + Groups(a));
      AltWellFormed(Code(f, a, back, cc), Code(f, b, back, cc + Groups(a)));
    case Capture(a) =>
      CodeWellFormed(f, a, back, cc + 1);
      BracketWellFormed(Instr.Save(back, cc), Code(f, a, back, cc + 1), Instr.Save(!back, cc));
    case Look(a, neg, behind) =>
      var ca := Code(f, a, behind, cc);
      CodeWellFormed(f, a, behind, cc);
      BracketWellFormed(Instr.Look(neg, ToU32(Len(ca) + 1)), ca, Instr.Match);
    case Quant(a, min, max, greedy) =>
      CodeWellFormed(f, a, back, cc);
      QuantCodeWellFormed(Code(f, a, back, cc), min, max, greedy, cc, Groups(a));
  }

  lemma CharCodeWellFormed(back: bool, i: Instr, n: Node)
    requires n.Class? ==> i == ClassInstr(n.points) && |n.points| / 2 < 65535
    requires !n.Class? ==> !i.Range? && !i.Range32?
    ensures AllWellFormed(CharCode(back, i))
  {
  }

  lemma NoOperandWellFormed(code: seq<Instr>)
    requires forall k :: 0 <= k < |code| ==> !code[k].Range? && !code[k].Range32?
    ensures AllWellFormed(code)
  {
  }

  lemma AltWellFormed(ca: seq<Instr>, cb: seq<Instr>)
    requires AllWellFormed(ca) && AllWellFormed(cb)
    ensures AllWellFormed([Instr.Split(true, ToU32(Len(ca) + 5))] + ca + [Instr.Goto(ToU32(Len(cb)))] + cb)
  {
  }

  lemma BracketWellFormed(before: Instr, code: seq<Instr>, after: Instr)
    requires WellFormed(before) && AllWellFormed(code) && WellFormed(after)
    ensures AllWellFormed([before] + code + [after])
  {
  }

  lemma ProgramWellFormed(f: Flags, n: Node, sticky: bool)
    requires ValidNode(n) && 1 + Groups(n) <= 0x100
    ensures AllWellFormed(ProgramCode(f, n, sticky))
  {
    CodeWellFormed(f, n, false, 1);
  }

  lemma {:induction false} CatUnfold(f: Flags, n: Node, back: bool, cc: nat)
    requires n.Cat? && ValidNode(n) && cc + Groups(n) <= 0x100
    ensures Nodes(n.first) + Nodes(n.second) < Nodes(n) && Nodes(n.first) >= 0 && Nodes(n.second) >= 0
    ensures ValidNode(n.first) && ValidNode(n.second) && Groups(n) == Groups(n.first) + Groups(n.second)
    ensures var ca, cb := Code(f, n.first, back, cc), Code(f, n.second, back, cc + Groups(n.first));
      Code(f, n, back, cc) == if back then cb + ca else ca + cb
  {
    hide Len, ToU32, AltCode, QuantCode, LiteralInstr, ClassInstr, CharCode;
  }

  lemma {:induction false} AltUnfold(f: Flags, n: Node, back: bool, cc: nat)
    requires n.Alt? && ValidNode(n) && cc + Groups(n) <= 0x100
    ensures Nodes(n.left) < Nodes(n) && Nodes(n.right) < Nodes(n)
    ensures ValidNode(n.left) && ValidNode(n.right) && Groups(n) == Groups(n.left) + Groups(n.right)
    ensures Code(f, n, back, cc)
         == AltCode(Code(f, n.left, back, cc), Code(f, n.right, back, cc + Groups(n.left)))
  {
    hide Len, ToU32, AltCode, QuantCode, LiteralInstr, ClassInstr, CharCode;
  }

  lemma {:induction false} QuantUnfold(n: Node)
    requires n.Quant? && ValidNode(n)
    ensures ValidNode(n.atom) && Groups(n) == Groups(n.atom) && n.min <= n.max && Nodes(n.atom) < Nodes(n)
  {
  }

  lemma {:induction false} CaptureUnfold(f: Flags, n: Node, back: bool, cc: nat)
    requires n.Capture? && ValidNode(n) && cc + Groups(n) <= 0x100
    ensures ValidNode(n.body) && Groups(n) == 1 + Groups(n.body) && Nodes(n.body) < Nodes(n)
    ensures Code(f, n, back, cc) == [Instr.Save(back, cc)] + Code(f, n.body, back, cc + 1) + [Instr.Save(!back, cc)]
  {
    hide Len, ToU32, AltCode, QuantCode, LiteralInstr, ClassInstr, CharCode;
  }
}
