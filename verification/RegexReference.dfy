/** The reference semantics of patterns: for a start state, the list of all ways to match,
    in the order in which backtracking is to try them. */
module RegexReference {
  import opened Bytes
  import opened RegexCode
  import opened RegexText
  import opened RegexSyntax
  import opened CharSets

  datatype Env = Env(text: Text, flags: Flags, captureCount: nat)

  type Captures = seq<Option<nat>>

  /** A state of the match: the position and, for each group, where it starts and ends. */
  datatype State = State(pos: nat, caps: Captures)

  /** The position and the ends of the groups lie in the text. */
  ghost predicate InText(e: Env, s: State) {
    && s.pos <= |e.text.units|
    && |s.caps| == 2 * e.captureCount
    && forall k :: 0 <= k < |s.caps| && s.caps[k].Some? ==> s.caps[k].value <= |e.text.units|
  }

  /** They lie on character boundaries. */
  ghost predicate ValidState(e: Env, s: State): (r: bool)
    ensures r ==> InText(e, s)
  {
    && Boundary(e.text, s.pos)
    && |s.caps| == 2 * e.captureCount
    && forall k :: 0 <= k < |s.caps| && s.caps[k].Some? ==> Boundary(e.text, s.caps[k].value)
  }

  /** Moving from `p` to `q` is in the direction of matching. */
  predicate Toward(back: bool, p: nat, q: nat) {
    if back then q <= p else p <= q
  }

  /** How far a match can still move from `p`. */
  function Room(e: Env, back: bool, p: nat): (r: nat)
    requires p <= |e.text.units|
  {
    if back then p else |e.text.units| - p
  }

  ghost predicate AllWithin(e: Env, back: bool, from: nat, rs: seq<State>) {
    forall k :: 0 <= k < |rs| ==> InText(e, rs[k]) && Toward(back, from, rs[k].pos)
  }

  ghost predicate AllFrom(e: Env, back: bool, from: nat, rs: seq<State>): (r: bool)
    ensures r ==> AllWithin(e, back, from, rs)
  {
    forall k :: 0 <= k < |rs| ==> ValidState(e, rs[k]) && Toward(back, from, rs[k].pos)
  }

  predicate IsLineTerminator(c: int) { c == 10 || c == 13 || c == 0x2028 || c == 0x2029 }

  predicate IsWordChar(c: int) {
    48 <= c <= 57 || 97 <= c <= 122 || 65 <= c <= 90 || c == 95
  }

  predicate AtLineStart(e: Env, p: nat)
    requires p <= |e.text.units|
  {
    p == 0 || (e.flags.multiLine && IsLineTerminator(CharBefore(e.text, p, 0)))
  }

  predicate AtLineEnd(e: Env, p: nat)
    requires p <= |e.text.units|
  {
    p == |e.text.units| || (e.flags.multiLine && IsLineTerminator(CharAt(e.text, p, |e.text.units|)))
  }

  predicate AtWordBoundary(e: Env, p: nat)
    requires p <= |e.text.units|
  {
    (p > 0 && IsWordChar(CharBefore(e.text, p, 0)))
    != (p < |e.text.units| && IsWordChar(CharAt(e.text, p, |e.text.units|)))
  }

  /** The next character in the direction of matching. */
  function NextChar(e: Env, back: bool, p: nat): (r: Option<(codepoint, nat)>)
    requires p <= |e.text.units|
    ensures r.Some? ==> r.value.1 <= |e.text.units| && Toward(back, p, r.value.1) && r.value.1 != p
    ensures Boundary(e.text, p) && r.Some? ==> Boundary(e.text, r.value.1)
  {
    if back then
      if p == 0 then None else
        assert Boundary(e.text, p) ==> Boundary(e.text, PrevPos(e.text, p, 0)) by {
          if Boundary(e.text, p) { PrevKeepsBoundary(e.text, p, 0); }
        }
        Some((CharBefore(e.text, p, 0), PrevPos(e.text, p, 0)))
    else
      if p == |e.text.units| then None else
        assert Boundary(e.text, p) ==> Boundary(e.text, NextPos(e.text, p, |e.text.units|)) by {
          if Boundary(e.text, p) { NextKeepsBoundary(e.text, p, |e.text.units|); }
        }
        Some((CharAt(e.text, p, |e.text.units|), NextPos(e.text, p, |e.text.units|)))
  }

  /** The one-character patterns. */
  predicate Accepts(f: Flags, n: Node, c: codepoint)
    requires n.Char? || n.AnyChar? || n.Class?
  {
    match n
    case Char(d) => Fold(f, c) == Fold(f, d)
    case AnyChar => f.dotAll || !IsLineTerminator(c)
    case Class(points) => Contains(points, Fold(f, c))
  }

  function SaveSlot(s: State, slot: nat): (r: State)
    requires slot < |s.caps|
  {
    s.(caps := s.caps[slot := Some(s.pos)])
  }

  function SaveAll(rs: seq<State>, slot: nat): (r: seq<State>)
    requires forall k :: 0 <= k < |rs| ==> slot < |rs[k].caps|
    ensures |r| == |rs| && forall k :: 0 <= k < |rs| ==> r[k] == SaveSlot(rs[k], slot)
  {
    seq(|rs|, k requires 0 <= k < |rs| => SaveSlot(rs[k], slot))
  }

  /** Forget the groups `first` up to but not including `last`. */
  function Reset(s: State, first: nat, last: nat): (r: State) {
    s.(caps := seq(|s.caps|, k requires 0 <= k < |s.caps| =>
      if 2 * first <= k < 2 * last then None else s.caps[k]))
  }

  function FoldAll(f: Flags, cs: seq<codepoint>): (r: seq<codepoint>)
    ensures |r| == |cs|
  {
    seq(|cs|, k requires 0 <= k < |cs| => Fold(f, cs[k]))
  }

  /** Where matching the text from `a` to `b` again, starting at `p`, ends. */
  function Again(e: Env, back: bool, a: nat, b: nat, p: nat): (r: Option<nat>)
    requires a < b <= |e.text.units| && p <= |e.text.units|
    ensures r.Some? ==> r.value <= |e.text.units| && Toward(back, p, r.value)
  {
    var cs := Chars(e.text, a, b);
    var q := if back then Backward(e.text, p, |cs|) else Forward(e.text, p, |cs|);
    if q.Some? && FoldAll(e.flags, if back then Chars(e.text, q.value, p) else Chars(e.text, p, q.value))
                  == FoldAll(e.flags, cs)
    then q else None
  }

  lemma AgainValid(e: Env, back: bool, a: nat, b: nat, p: nat)
    requires a < b <= |e.text.units| && Boundary(e.text, p) && Again(e, back, a, b, p).Some?
    ensures Boundary(e.text, Again(e, back, a, b, p).value) && Toward(back, p, Again(e, back, a, b, p).value)
  {
    var cs := Chars(e.text, a, b);
    if back {
      BackwardBoundary(e.text, p, |cs|);
    } else {
      ForwardBoundary(e.text, p, |cs|);
    }
  }

  function MatchBackRef(e: Env, back: bool, idx: nat, s: State): (rs: seq<State>)
    requires InText(e, s)
    ensures AllWithin(e, back, s.pos, rs)
    ensures ValidState(e, s) ==> AllFrom(e, back, s.pos, rs)
  {
    if idx >= e.captureCount then []
    else if s.caps[2 * idx].None? || s.caps[2 * idx + 1].None? then [s]
    else
      var a, b := s.caps[2 * idx].value, s.caps[2 * idx + 1].value;
      if a >= b then [s] else
        var q := Again(e, back, a, b, s.pos);
        if q.None? then [] else
          assert ValidState(e, s) ==> Boundary(e.text, q.value) by {
            if ValidState(e, s) {
              AgainValid(e, back, a, b, s.pos);
            }
          }
          [s.(pos := q.value)]
  }

  /** The matches that end elsewhere than at `p`. */
  function Advancing(rs: seq<State>, p: nat): (r: seq<State>)
    ensures forall k :: 0 <= k < |r| ==> r[k] in rs && r[k].pos != p
  {
    if rs == [] then []
    else (if rs[0].pos != p then [rs[0]] else []) + Advancing(rs[1..], p)
  }

  function Fewer(more: Option<nat>): (r: Option<nat>)
  {
    if more.None? || more.value == 0 then more else Some(more.value - 1)
  }

  /** What a look-around makes of the matches of its body: it keeps the position and the groups of the first. */
  function LookOutcomes(neg: bool, s: State, rs: seq<State>): (r: seq<State>) {
    if neg then (if rs == [] then [s] else [])
    else if rs == [] then [] else [State(s.pos, rs[0].caps)]
  }

  /** The state the iterations of a quantifier start from: without a mandatory one its groups are forgotten. */
  function StartState(n: Node, cc: nat, s: State): (r: State)
    requires n.Quant?
  {
    if n.min == 0 && Groups(n.atom) > 0 then Reset(s, cc, cc + Groups(n.atom)) else s
  }

  lemma SaveIn(e: Env, s: State, slot: nat)
    requires InText(e, s) && slot < 2 * e.captureCount
    ensures InText(e, SaveSlot(s, slot)) && SaveSlot(s, slot).pos == s.pos
    ensures ValidState(e, s) ==> ValidState(e, SaveSlot(s, slot))
  {
  }

  lemma SaveAllIn(e: Env, back: bool, from: nat, rs: seq<State>, slot: nat)
    requires AllWithin(e, back, from, rs) && slot < 2 * e.captureCount
    ensures forall k :: 0 <= k < |rs| ==> slot < |rs[k].caps|
    ensures AllWithin(e, back, from, SaveAll(rs, slot))
    ensures AllFrom(e, back, from, rs) ==> AllFrom(e, back, from, SaveAll(rs, slot))
  {
    hide InText, ValidState;
    assert forall k :: 0 <= k < |rs| ==> InText(e, rs[k]);
    CapsOf(e, rs);
    forall k | 0 <= k < |rs|
      ensures InText(e, SaveSlot(rs[k], slot)) && SaveSlot(rs[k], slot).pos == rs[k].pos
      ensures ValidState(e, rs[k]) ==> ValidState(e, SaveSlot(rs[k], slot))
    {
      SaveIn(e, rs[k], slot);
    }
  }

  lemma CapsOf(e: Env, rs: seq<State>)
    requires forall k :: 0 <= k < |rs| ==> InText(e, rs[k])
    ensures forall k :: 0 <= k < |rs| ==> |rs[k].caps| == 2 * e.captureCount
  {
  }

  lemma LookIn(e: Env, neg: bool, back: bool, s: State, behind: bool, rs: seq<State>)
    requires InText(e, s) && AllWithin(e, behind, s.pos, rs)
    ensures AllWithin(e, back, s.pos, LookOutcomes(neg, s, rs))
    ensures ValidState(e, s) && AllFrom(e, behind, s.pos, rs) ==> AllFrom(e, back, s.pos, LookOutcomes(neg, s, rs))
  {
    if rs != [] && ValidState(e, s) && AllFrom(e, behind, s.pos, rs) {
      assert ValidState(e, rs[0]);
    }
  }

  lemma StartStateIn(e: Env, back: bool, n: Node, cc: nat, s: State)
    requires n.Quant? && InText(e, s)
    ensures InText(e, StartState(n, cc, s)) && StartState(n, cc, s).pos == s.pos
    ensures AllWithin(e, back, s.pos, [StartState(n, cc, s)])
    ensures ValidState(e, s) ==> AllFrom(e, back, s.pos, [StartState(n, cc, s)])
  {
  }

  /** All matches of `n`, the preferred one first. */
  function Matches(e: Env, n: Node, back: bool, cc: nat, s: State): (rs: seq<State>)
    requires ValidNode(n) && cc + Groups(n) <= e.captureCount && InText(e, s)
    ensures AllWithin(e, back, s.pos, rs)
    ensures ValidState(e, s) ==> AllFrom(e, back, s.pos, rs)
    decreases n, 0, 0, 0
  {
    match n
    case Empty => [s]
    case Char(_) => MatchChar(e, n, back, s)
    case AnyChar => MatchChar(e, n, back, s)
    case Class(_) => MatchChar(e, n, back, s)
    case LineStart => if AtLineStart(e, s.pos) then [s] else []
    case LineEnd => if AtLineEnd(e, s.pos) then [s] else []
    case WordBoundary(negated) => if AtWordBoundary(e, s.pos) != negated then [s] else []
    case Cat(a, b) =>
      if back
      then MatchesAll(e, a, back, cc, s.pos, Matches(e, b, back, cc + Groups(a), s))
      else MatchesAll(e, b, back, cc + Groups(a), s.pos, Matches(e, a, back, cc, s))
    case Alt(a, b) => Matches(e, a, back, cc, s) + Matches(e, b, back, cc + Groups(a), s)
    case Capture(a) =>
      var first, last := 2 * cc + if back then 1 else 0, 2 * cc + if back then 0 else 1;
      SaveIn(e, s, first);
      var rs := Matches(e, a, back, cc + 1, SaveSlot(s, first));
      SaveAllIn(e, back, s.pos, rs, last);
      SaveAll(rs, last)
    case BackRef(idx) => MatchBackRef(e, back, idx, s)
    case Look(a, neg, behind) =>
      var rs := Matches(e, a, behind, cc, s);
      LookIn(e, neg, back, s, behind, rs);
      LookOutcomes(neg, s, rs)
    case Quant(a, min, max, greedy) =>
      StartStateIn(e, back, n, cc, s);
      var more := if max == INFINITE then None else Some(max - min);
      var rs := Repeat(e, a, back, cc, min, s.pos, [StartState(n, cc, s)]);
      OptionalAll(e, a, back, cc, more, greedy, s.pos, Room(e, back, s.pos) + 1, rs)
  }

  function MatchChar(e: Env, n: Node, back: bool, s: State): (rs: seq<State>)
    requires n.Char? || n.AnyChar? || n.Class?
    requires InText(e, s)
    ensures AllWithin(e, back, s.pos, rs)
    ensures ValidState(e, s) ==> AllFrom(e, back, s.pos, rs)
  {
    var c := NextChar(e, back, s.pos);
    if c.Some? && Accepts(e.flags, n, c.value.0) then [s.(pos := c.value.1)] else []
  }

  /** The matches of `n` after each of the states `rs`, in turn. */
  function MatchesAll(e: Env, n: Node, back: bool, cc: nat, from: nat, rs: seq<State>): (r: seq<State>)
    requires ValidNode(n) && cc + Groups(n) <= e.captureCount && AllWithin(e, back, from, rs)
    ensures AllWithin(e, back, from, r)
    ensures AllFrom(e, back, from, rs) ==> AllFrom(e, back, from, r)
    decreases n, 1, 0, |rs|
  {
    if rs == [] then [] else Matches(e, n, back, cc, rs[0]) + MatchesAll(e, n, back, cc, from, rs[1..])
  }

  /** Exactly `n` more iterations of `a`. */
  function Repeat(e: Env, a: Node, back: bool, cc: nat, n: nat, from: nat, rs: seq<State>): (r: seq<State>)
    requires ValidNode(a) && cc + Groups(a) <= e.captureCount && AllWithin(e, back, from, rs)
    ensures AllWithin(e, back, from, r)
    ensures AllFrom(e, back, from, rs) ==> AllFrom(e, back, from, r)
    decreases a, 2, n, 0
  {
    if n == 0 then rs else Repeat(e, a, back, cc, n - 1, from, MatchesAll(e, a, back, cc, from, rs))
  }

  /** Up to `more` further iterations of `a`, each of which has to move the position. */
  function Optional(e: Env, a: Node, back: bool, cc: nat, more: Option<nat>, greedy: bool, s: State): (r: seq<State>)
    requires ValidNode(a) && cc + Groups(a) <= e.captureCount && InText(e, s)
    ensures AllWithin(e, back, s.pos, r)
    ensures ValidState(e, s) ==> AllFrom(e, back, s.pos, r)
    decreases a, 2, 2 * Room(e, back, s.pos) + 1, 0
  {
    if more == Some(0) then [s] else
    var rs := Advancing(Matches(e, a, back, cc, s), s.pos);
    var tail := OptionalAll(e, a, back, cc, Fewer(more), greedy, s.pos, Room(e, back, s.pos), rs);
    if greedy then tail + [s] else [s] + tail
  }

  function OptionalAll(e: Env, a: Node, back: bool, cc: nat, more: Option<nat>, greedy: bool, from: nat,
                       room: nat, rs: seq<State>): (r: seq<State>)
    requires ValidNode(a) && cc + Groups(a) <= e.captureCount && AllWithin(e, back, from, rs)
    requires forall k :: 0 <= k < |rs| ==> Room(e, back, rs[k].pos) < room
    ensures AllWithin(e, back, from, r)
    ensures AllFrom(e, back, from, rs) ==> AllFrom(e, back, from, r)
    decreases a, 2, 2 * room, |rs|
  {
    if rs == [] then []
    else Optional(e, a, back, cc, more, greedy, rs[0])
         + OptionalAll(e, a, back, cc, more, greedy, from, room, rs[1..])
  }

  lemma {:induction false} CatMatches(e: Env, n: Node, back: bool, cc: nat, s: State)
    requires n.Cat? && ValidNode(n) && cc + Groups(n) <= e.captureCount && InText(e, s)
    requires ValidNode(n.first) && ValidNode(n.second) && Groups(n) == Groups(n.first) + Groups(n.second)
    ensures var a, b, ccB := n.first, n.second, cc + Groups(n.first);
      Matches(e, n, back, cc, s) ==
        if back then MatchesAll(e, a, back, cc, s.pos, Matches(e, b, back, ccB, s))
        else MatchesAll(e, b, back, ccB, s.pos, Matches(e, a, back, cc, s))
  {
    hide MatchChar, MatchBackRef, MatchesAll, Repeat, OptionalAll, SaveAll;
  }

  lemma {:induction false} AltMatches(e: Env, n: Node, back: bool, cc: nat, s: State)
    requires n.Alt? && ValidNode(n) && cc + Groups(n) <= e.captureCount && InText(e, s)
    requires ValidNode(n.left) && ValidNode(n.right) && Groups(n) == Groups(n.left) + Groups(n.right)
    ensures Matches(e, n, back, cc, s)
         == Matches(e, n.left, back, cc, s) + Matches(e, n.right, back, cc + Groups(n.left), s)
  {
    hide MatchChar, MatchBackRef, MatchesAll, Repeat, OptionalAll, SaveAll;
  }

  lemma {:induction false} QuantMatches(e: Env, n: Node, back: bool, cc: nat, s: State)
    requires n.Quant? && ValidNode(n) && cc + Groups(n) <= e.captureCount && InText(e, s)
    requires ValidNode(n.atom) && Groups(n.atom) == Groups(n) && n.min <= n.max && (n.min > 0 || Groups(n) == 0)
    ensures Matches(e, n, back, cc, s)
         == OptionalAll(e, n.atom, back, cc, if n.max == INFINITE then None else Some(n.max - n.min), n.greedy, s.pos,
              Room(e, back, s.pos) + 1, Repeat(e, n.atom, back, cc, n.min, s.pos, [s]))
  {
    hide MatchChar, MatchBackRef, MatchesAll, Repeat, OptionalAll, SaveAll;
  }

  lemma {:induction false} RepeatNone(e: Env, a: Node, back: bool, cc: nat, from: nat, rs: seq<State>)
    requires ValidNode(a) && cc + Groups(a) <= e.captureCount && AllWithin(e, back, from, rs)
    ensures Repeat(e, a, back, cc, 0, from, rs) == rs
  {
  }

  lemma {:induction false} RepeatOnce(e: Env, a: Node, back: bool, cc: nat, s: State)
    requires ValidNode(a) && cc + Groups(a) <= e.captureCount && InText(e, s)
    ensures AllWithin(e, back, s.pos, [s])
    ensures Repeat(e, a, back, cc, 1, s.pos, [s]) == Matches(e, a, back, cc, s)
  {
    hide Matches, ValidNode, Groups;
    var rs := Matches(e, a, back, cc, s);
    assert MatchesAll(e, a, back, cc, s.pos, []) == [];
    assert MatchesAll(e, a, back, cc, s.pos, [s]) == rs + [];
    assert Repeat(e, a, back, cc, 0, s.pos, rs) == rs;
  }
}
