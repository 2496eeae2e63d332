/** What the elementary patterns, groups and quantifiers of the reference semantics mean. */
module RegexMeaning {
  import opened Bytes
  import opened RegexCode
  import opened RegexText
  import opened RegexSyntax
  import opened CharSets
  import opened RegexReference

  // ---- characters and classes ----

  /** The same text and flags, without case folding. */
  function Unfolded(e: Env): (r: Env) {
    e.(flags := e.flags.(ignoreCase := false))
  }

  lemma {:induction false} CharMatches(e: Env, n: Node, back: bool, cc: nat, s: State)
    requires (n.Char? || n.AnyChar? || n.Class?) && ValidNode(n) && cc <= e.captureCount && InText(e, s)
    ensures Groups(n) == 0 && Matches(e, n, back, cc, s) == MatchChar(e, n, back, s)
  {
    hide MatchChar, MatchBackRef, MatchesAll, Repeat, OptionalAll, SaveAll, InText;
  }

  lemma {:induction false} LookMatches(e: Env, a: Node, neg: bool, behind: bool, back: bool, cc: nat, s: State)
    requires ValidNode(a) && cc + Groups(a) <= e.captureCount && InText(e, s)
    ensures ValidNode(Node.Look(a, neg, behind)) && Groups(Node.Look(a, neg, behind)) == Groups(a)
    ensures Matches(e, Node.Look(a, neg, behind), back, cc, s) == LookOutcomes(neg, s, Matches(e, a, behind, cc, s))
  {
    hide MatchChar, MatchBackRef, MatchesAll, Repeat, OptionalAll, SaveAll, InText, LookOutcomes;
  }

  /** A character: the next one in the direction of matching is the same or, when case is ignored, has the same
      canonical form. */
  lemma CharMeaning(e: Env, c: codepoint, back: bool, cc: nat, s: State)
    requires cc <= e.captureCount && InText(e, s)
    ensures var n, rs := |e.text.units|, Matches(e, Node.Char(c), back, cc, s);
      if (if back then s.pos == 0 else s.pos == n) then rs == []
      else
        var d := if back then CharBefore(e.text, s.pos, 0) else CharAt(e.text, s.pos, n);
        var q := if back then PrevPos(e.text, s.pos, 0) else NextPos(e.text, s.pos, n);
        rs == if (if e.flags.ignoreCase then e.flags.canon(d) == e.flags.canon(c) else d == c)
              then [State(q, s.caps)] else []
  {
    hide CharAt, CharBefore, NextPos, PrevPos, Boundary;
    CharMatches(e, Node.Char(c), back, cc, s);
  }

  /** A class: the next character or, when case is ignored, its canonical form lies in the set. */
  lemma ClassMeaning(e: Env, points: seq<u32>, back: bool, cc: nat, s: State)
    requires ValidNode(Node.Class(points)) && cc <= e.captureCount && InText(e, s)
    ensures var n, rs := |e.text.units|, Matches(e, Node.Class(points), back, cc, s);
      if (if back then s.pos == 0 else s.pos == n) then rs == []
      else
        var d := if back then CharBefore(e.text, s.pos, 0) else CharAt(e.text, s.pos, n);
        var q := if back then PrevPos(e.text, s.pos, 0) else NextPos(e.text, s.pos, n);
        rs == if Contains(points, if e.flags.ignoreCase then e.flags.canon(d) else d) then [State(q, s.caps)] else []
  {
    hide CharAt, CharBefore, NextPos, PrevPos, Boundary, Contains, Normal;
    CharMatches(e, Node.Class(points), back, cc, s);
  }

  // ---- the assertions and the dot ----

  /** 10, 13 and 0x2028 to 0x2029. */
  const TERMINATORS: seq<u32> := [10, 11, 13, 14, 0x2028, 0x202a]

  const NO_TERMINATORS: seq<u32> := [0, 10, 11, 13, 14, 0x2028, 0x202a, 0x11_0000]

  const ANY: seq<u32> := [0, 0x11_0000]

  /** The digits, the letters without marks, and the underscore. */
  const WORD: seq<u32> := [48, 58, 65, 91, 95, 96, 97, 123]

  lemma PointsNormal()
    ensures ValidNode(Node.Class(TERMINATORS)) && ValidNode(Node.Class(NO_TERMINATORS)) && ValidNode(Node.Class(ANY))
    ensures ValidNode(Node.Class(WORD))
  {
  }

  lemma TerminatorPoints(c: codepoint)
    ensures Contains(TERMINATORS, c) <==> IsLineTerminator(c)
    ensures Contains(NO_TERMINATORS, c) <==> !IsLineTerminator(c)
    ensures Contains(ANY, c)
  {
    ThreeIntervals(TERMINATORS, c);
    FourIntervals(NO_TERMINATORS, c);
    assert ANY[2 * 0] <= c < ANY[2 * 0 + 1];
  }

  lemma WordPoints(c: codepoint)
    ensures Contains(WORD, c) <==> IsWordChar(c)
  {
    FourIntervals(WORD, c);
  }

  lemma ThreeIntervals(p: seq<u32>, c: int)
    requires |p| == 6
    ensures Contains(p, c) <==> p[0] <= c < p[1] || p[2] <= c < p[3] || p[4] <= c < p[5]
  {
    assert p[2 * 0] == p[0] && p[2 * 0 + 1] == p[1];
    assert p[2 * 1] == p[2] && p[2 * 1 + 1] == p[3];
    assert p[2 * 2] == p[4] && p[2 * 2 + 1] == p[5];
  }

  lemma FourIntervals(p: seq<u32>, c: int)
    requires |p| == 8
    ensures Contains(p, c) <==> p[0] <= c < p[1] || p[2] <= c < p[3] || p[4] <= c < p[5] || p[6] <= c < p[7]
  {
    assert p[2 * 0] == p[0] && p[2 * 0 + 1] == p[1];
    assert p[2 * 1] == p[2] && p[2 * 1 + 1] == p[3];
    assert p[2 * 2] == p[4] && p[2 * 2 + 1] == p[5];
    assert p[2 * 3] == p[6] && p[2 * 3 + 1] == p[7];
  }

  /** A look-around for a class, without case folding, succeeds at s. */
  ghost predicate Sees(e: Env, points: seq<u32>, behind: bool, back: bool, cc: nat, s: State)
    requires ValidNode(Node.Class(points)) && cc <= e.captureCount && InText(e, s)
  {
    Matches(Unfolded(e), Node.Look(Node.Class(points), false, behind), back, cc, s) != []
  }

  lemma SeesMeaning(e: Env, points: seq<u32>, behind: bool, back: bool, cc: nat, s: State)
    requires ValidNode(Node.Class(points)) && cc <= e.captureCount && InText(e, s)
    ensures Sees(e, points, behind, back, cc, s) <==>
      if behind then s.pos > 0 && Contains(points, CharBefore(e.text, s.pos, 0))
      else s.pos < |e.text.units| && Contains(points, CharAt(e.text, s.pos, |e.text.units|))
  {
    hide CharAt, CharBefore, NextPos, PrevPos, Boundary, Contains, Normal;
    LookMatches(Unfolded(e), Node.Class(points), false, behind, back, cc, s);
    ClassMeaning(Unfolded(e), points, behind, cc, s);
  }

  lemma {:induction false} AssertionMatches(e: Env, n: Node, back: bool, cc: nat, s: State)
    requires (n.LineStart? || n.LineEnd? || n.WordBoundary?) && cc <= e.captureCount && InText(e, s)
    ensures ValidNode(n) && Groups(n) == 0
    ensures Matches(e, n, back, cc, s) ==
      if (if n.LineStart? then AtLineStart(e, s.pos) else if n.LineEnd? then AtLineEnd(e, s.pos)
          else AtWordBoundary(e, s.pos) != n.negated) then [s] else []
  {
    hide MatchChar, MatchBackRef, MatchesAll, Repeat, OptionalAll, SaveAll, InText, AtLineStart, AtLineEnd,
      AtWordBoundary;
  }

  /** A word boundary: exactly one of the look-behind and the look-ahead for a word character succeeds. */
  lemma WordBoundaryMeaning(e: Env, negated: bool, back: bool, cc: nat, s: State)
    requires cc <= e.captureCount && InText(e, s)
    ensures ValidNode(Node.Class(WORD))
    ensures var behind, ahead := Sees(e, WORD, true, back, cc, s), Sees(e, WORD, false, back, cc, s);
      Matches(e, Node.WordBoundary(negated), back, cc, s)
      == if ((behind && !ahead) || (!behind && ahead)) != negated then [s] else []
  {
    hide CharAt, CharBefore, Contains, Normal, Sees, IsWordChar, Matches;
    PointsNormal();
    AssertionMatches(e, Node.WordBoundary(negated), back, cc, s);
    SeesMeaning(e, WORD, true, back, cc, s);
    SeesMeaning(e, WORD, false, back, cc, s);
    if s.pos > 0 {
      WordPoints(CharBefore(e.text, s.pos, 0));
    }
    if s.pos < |e.text.units| {
      WordPoints(CharAt(e.text, s.pos, |e.text.units|));
    }
  }

  /** The start of the text or, with several lines, behind a line terminator. */
  lemma LineStartMeaning(e: Env, back: bool, cc: nat, s: State)
    requires cc <= e.captureCount && InText(e, s)
    ensures ValidNode(Node.Class(TERMINATORS))
    ensures Matches(e, Node.LineStart, back, cc, s)
         == if s.pos == 0 || (e.flags.multiLine && Sees(e, TERMINATORS, true, back, cc, s)) then [s] else []
  {
    hide CharAt, CharBefore, Contains, Normal, Sees, IsLineTerminator, Matches;
    PointsNormal();
    AssertionMatches(e, Node.LineStart, back, cc, s);
    SeesMeaning(e, TERMINATORS, true, back, cc, s);
    if s.pos > 0 {
      TerminatorPoints(CharBefore(e.text, s.pos, 0));
    }
  }

  /** The end of the text or, with several lines, before a line terminator. */
  lemma LineEndMeaning(e: Env, back: bool, cc: nat, s: State)
    requires cc <= e.captureCount && InText(e, s)
    ensures ValidNode(Node.Class(TERMINATORS))
    ensures Matches(e, Node.LineEnd, back, cc, s)
         == if s.pos == |e.text.units| || (e.flags.multiLine && Sees(e, TERMINATORS, false, back, cc, s))
            then [s] else []
  {
    hide CharAt, CharBefore, Contains, Normal, Sees, IsLineTerminator, Matches;
    PointsNormal();
    AssertionMatches(e, Node.LineEnd, back, cc, s);
    SeesMeaning(e, TERMINATORS, false, back, cc, s);
    if s.pos < |e.text.units| {
      TerminatorPoints(CharAt(e.text, s.pos, |e.text.units|));
    }
  }

  /** The dot is the class of all characters, or of all but the line terminators. */
  lemma DotMeaning(e: Env, back: bool, cc: nat, s: State)
    requires cc <= e.captureCount && InText(e, s)
    ensures ValidNode(Node.Class(ANY)) && ValidNode(Node.Class(NO_TERMINATORS))
    ensures Matches(e, Node.AnyChar, back, cc, s)
         == Matches(Unfolded(e), Node.Class(if e.flags.dotAll then ANY else NO_TERMINATORS), back, cc, s)
  {
    hide CharAt, CharBefore, NextPos, PrevPos, Boundary, Contains, Normal, IsLineTerminator, Matches;
    PointsNormal();
    CharMatches(e, Node.AnyChar, back, cc, s);
    ClassMeaning(Unfolded(e), if e.flags.dotAll then ANY else NO_TERMINATORS, back, cc, s);
    var c := NextChar(e, back, s.pos);
    if c.Some? {
      TerminatorPoints(c.value.0);
    }
  }

  // ---- the encoding of the text ----

  /** A code point in UTF-16: one unit, or a high and a low surrogate. */
  function Encoded(c: codepoint): (r: seq<u16>)
    ensures 1 <= |r| <= 2
  {
    if c < 0x1_0000 then [c] else [0xD800 + (c - 0x1_0000) / 0x400, 0xDC00 + (c - 0x1_0000) % 0x400]
  }

  function EncodedAll(cs: seq<codepoint>): (r: seq<u16>) {
    if cs == [] then [] else Encoded(cs[0]) + EncodedAll(cs[1..])
  }

  predicate IsScalar(c: codepoint) {
    !(0xD800 <= c < 0xE000)
  }

  /** Reading forward: the units passed are the encoding of the character read; a surrogate that has no partner stands
      for itself, and so does every unit outside UTF-16 mode. */
  lemma ReadMeaning(t: Text, p: nat, end: nat)
    requires p < end <= |t.units|
    ensures t.units[p..NextPos(t, p, end)] == Encoded(CharAt(t, p, end))
    ensures NextPos(t, p, end) == p + 2 <==>
      t.utf16 && p + 1 < end && 0xD800 <= t.units[p] < 0xDC00 && 0xDC00 <= t.units[p + 1] < 0xE000
  {
    if PairAt(t, p, end) {
      PairEncoded(t.units[p], t.units[p + 1]);
    }
  }

  lemma PairEncoded(hi: int, lo: int)
    requires 0xD800 <= hi < 0xDC00 && 0xDC00 <= lo < 0xE000
    ensures Encoded(FromSurrogate(hi, lo)) == [hi, lo]
  {
  }

  /** Reading backward. */
  lemma ReadBackMeaning(t: Text, p: nat, start: nat)
    requires start < p <= |t.units|
    ensures t.units[PrevPos(t, p, start)..p] == Encoded(CharBefore(t, p, start))
    ensures PrevPos(t, p, start) == p - 2 <==>
      t.utf16 && start + 2 <= p && 0xD800 <= t.units[p - 2] < 0xDC00 && 0xDC00 <= t.units[p - 1] < 0xE000
  {
    if start + 2 <= p && PairAt(t, p - 2, p) {
      PairEncoded(t.units[p - 2], t.units[p - 1]);
    }
  }

  /** Reading an encoded text gives back its characters. */
  lemma {:induction false} DecodeEncoded(pre: seq<u16>, cs: seq<codepoint>)
    requires forall i :: 0 <= i < |cs| ==> IsScalar(cs[i])
    ensures var t := Text(pre + EncodedAll(cs), true); Chars(t, |pre|, |t.units|) == cs
    decreases |cs|
  {
    hide CharAt, NextPos;
    var t := Text(pre + EncodedAll(cs), true);
    if cs != [] {
      assert t.units == pre + Encoded(cs[0]) + EncodedAll(cs[1..]);
      FirstEncoded(pre, cs[0], EncodedAll(cs[1..]));
      DecodeEncoded(pre + Encoded(cs[0]), cs[1..]);
    }
  }

  lemma FirstEncoded(pre: seq<u16>, c: codepoint, post: seq<u16>)
    requires IsScalar(c)
    ensures var t := Text(pre + Encoded(c) + post, true);
      CharAt(t, |pre|, |t.units|) == c && NextPos(t, |pre|, |t.units|) == |pre| + |Encoded(c)|
  {
    var t := Text(pre + Encoded(c) + post, true);
    assert t.units[|pre|] == Encoded(c)[0];
    if c >= 0x1_0000 {
      assert t.units[|pre| + 1] == Encoded(c)[1];
    }
  }

  // ---- groups ----

  /** The two states have the same groups outside those numbered from lo to hi. */
  ghost predicate SameOutside(s: State, r: State, lo: nat, hi: nat) {
    |r.caps| == |s.caps| && forall i :: 0 <= i < |s.caps| && (i < 2 * lo || i >= 2 * hi) ==> r.caps[i] == s.caps[i]
  }

  ghost predicate AllSame(s: State, rs: seq<State>, lo: nat, hi: nat) {
    forall k :: 0 <= k < |rs| ==> SameOutside(s, rs[k], lo, hi)
  }

  lemma SameTrans(s: State, r: State, q: State, lo: nat, hi: nat)
    requires SameOutside(s, r, lo, hi) && SameOutside(r, q, lo, hi)
    ensures SameOutside(s, q, lo, hi)
  {
  }

  lemma AllSameConcat(s: State, a: seq<State>, b: seq<State>, lo: nat, hi: nat)
    requires AllSame(s, a, lo, hi) && AllSame(s, b, lo, hi)
    ensures AllSame(s, a + b, lo, hi)
  {
  }

  lemma AllSameTrans(s: State, r: State, rs: seq<State>, lo: nat, hi: nat)
    requires SameOutside(s, r, lo, hi) && AllSame(r, rs, lo, hi)
    ensures AllSame(s, rs, lo, hi)
  {
    hide SameOutside;
    forall k | 0 <= k < |rs|
      ensures SameOutside(s, rs[k], lo, hi)
    {
      SameTrans(s, r, rs[k], lo, hi);
    }
  }

  lemma AllSameRest(s: State, rs: seq<State>, lo: nat, hi: nat)
    requires AllSame(s, rs, lo, hi) && rs != []
    ensures SameOutside(s, rs[0], lo, hi) && AllSame(s, rs[1..], lo, hi)
  {
  }

  lemma AllSameOne(s: State, r: State, lo: nat, hi: nat)
    requires r.caps == s.caps
    ensures AllSame(s, [r], lo, hi) && AllSame(s, [], lo, hi)
  {
  }

  lemma {:induction false} CaptureMatches(e: Env, a: Node, back: bool, cc: nat, s: State)
    requires ValidNode(a) && cc + 1 + Groups(a) <= e.captureCount && InText(e, s)
    ensures var n, first, last := Node.Capture(a), 2 * cc + if back then 1 else 0, 2 * cc + if back then 0 else 1;
      && ValidNode(n) && Groups(n) == 1 + Groups(a)
      && InText(e, SaveSlot(s, first))
      && (var rs := Matches(e, a, back, cc + 1, SaveSlot(s, first));
          && (forall k :: 0 <= k < |rs| ==> last < |rs[k].caps|)
          && Matches(e, n, back, cc, s) == SaveAll(rs, last))
  {
    hide MatchChar, MatchBackRef, MatchesAll, Repeat, OptionalAll, SaveAll;
    var first, last := 2 * cc + if back then 1 else 0, 2 * cc + if back then 0 else 1;
    SaveIn(e, s, first);
    SaveAllIn(e, back, s.pos, Matches(e, a, back, cc + 1, SaveSlot(s, first)), last);
  }

  lemma {:induction false} QuantifierMatches(e: Env, n: Node, back: bool, cc: nat, s: State)
    requires n.Quant? && ValidNode(n) && cc + Groups(n) <= e.captureCount && InText(e, s)
    ensures ValidNode(n.atom) && Groups(n.atom) == Groups(n) && n.min <= n.max
    ensures AllWithin(e, back, s.pos, [StartState(n, cc, s)]) && s.pos <= |e.text.units|
    ensures var rs := Repeat(e, n.atom, back, cc, n.min, s.pos, [StartState(n, cc, s)]);
      forall k :: 0 <= k < |rs| ==> rs[k].pos <= |e.text.units| && Room(e, back, rs[k].pos) < Room(e, back, s.pos) + 1
    ensures Matches(e, n, back, cc, s)
         == OptionalAll(e, n.atom, back, cc, if n.max == INFINITE then None else Some(n.max - n.min), n.greedy, s.pos,
              Room(e, back, s.pos) + 1, Repeat(e, n.atom, back, cc, n.min, s.pos, [StartState(n, cc, s)]))
  {
    hide MatchChar, MatchBackRef, MatchesAll, Repeat, OptionalAll, SaveAll, StartState;
    StartStateIn(e, back, n, cc, s);
  }

  lemma {:induction false} BackRefMatches(e: Env, idx: u8, back: bool, cc: nat, s: State)
    requires cc <= e.captureCount && InText(e, s)
    ensures Matches(e, Node.BackRef(idx), back, cc, s) == MatchBackRef(e, back, idx, s)
  {
    hide MatchChar, MatchBackRef, MatchesAll, Repeat, OptionalAll, SaveAll, InText;
  }

  lemma BackRefFrame(e: Env, idx: u8, back: bool, s: State, lo: nat, hi: nat)
    requires InText(e, s)
    ensures AllSame(s, MatchBackRef(e, back, idx, s), lo, hi)
  {
    hide Again;
  }

  lemma StartFrame(n: Node, cc: nat, s: State, lo: nat, hi: nat)
    requires n.Quant? && lo <= cc && cc + Groups(n.atom) <= hi
    ensures AllSame(s, [StartState(n, cc, s)], lo, hi)
  {
  }

  lemma SaveFrame(s: State, slot: nat, lo: nat, hi: nat)
    requires slot < |s.caps| && 2 * lo <= slot < 2 * hi
    ensures SameOutside(s, SaveSlot(s, slot), lo, hi)
  {
  }

  lemma SaveAllFrame(s: State, rs: seq<State>, slot: nat, lo: nat, hi: nat)
    requires AllSame(s, rs, lo, hi) && 2 * lo <= slot < 2 * hi && slot < |s.caps|
    ensures forall k :: 0 <= k < |rs| ==> slot < |rs[k].caps|
    ensures AllSame(s, SaveAll(rs, slot), lo, hi)
  {
    assert forall k :: 0 <= k < |rs| ==> SameOutside(s, rs[k], lo, hi);
  }

  lemma LookFrame(s: State, neg: bool, rs: seq<State>, lo: nat, hi: nat)
    requires AllSame(s, rs, lo, hi)
    ensures AllSame(s, LookOutcomes(neg, s, rs), lo, hi)
  {
    if rs != [] {
      assert SameOutside(s, rs[0], lo, hi);
    }
  }

  lemma AdvancingFrame(s: State, rs: seq<State>, p: nat, lo: nat, hi: nat)
    requires AllSame(s, rs, lo, hi)
    ensures AllSame(s, Advancing(rs, p), lo, hi)
  {
    hide SameOutside;
    var r := Advancing(rs, p);
    forall k | 0 <= k < |r|
      ensures SameOutside(s, r[k], lo, hi)
    {
      assert r[k] in rs;
    }
  }

  lemma {:induction false} LeafFrame(e: Env, n: Node, back: bool, cc: nat, s: State, lo: nat, hi: nat)
    requires n.Empty? || n.Char? || n.AnyChar? || n.Class? || n.LineStart? || n.LineEnd? || n.WordBoundary?
    requires ValidNode(n) && cc + Groups(n) <= e.captureCount && InText(e, s)
    ensures AllSame(s, Matches(e, n, back, cc, s), lo, hi)
  {
    hide MatchBackRef, MatchesAll, Repeat, OptionalAll, SaveAll, InText, AllSame, SameOutside, AtLineStart, AtLineEnd,
      AtWordBoundary, NextChar, Accepts;
    AllSameOne(s, s, lo, hi);
    CapsFit(e, s);
    if n.Char? || n.AnyChar? || n.Class? {
      CharMatches(e, n, back, cc, s);
      var c := NextChar(e, back, s.pos);
      if c.Some? {
        AllSameOne(s, s.(pos := c.value.1), lo, hi);
      }
    }
  }

  lemma CapsFit(e: Env, s: State)
    requires InText(e, s)
    ensures |s.caps| == 2 * e.captureCount && s.pos <= |e.text.units|
  {
  }

  /** A match changes no groups but those of its own pattern. */
  lemma {:induction false} MatchFrame(e: Env, n: Node, back: bool, cc: nat, s: State, lo: nat, hi: nat)
    requires ValidNode(n) && cc + Groups(n) <= e.captureCount && InText(e, s) && lo <= cc && cc + Groups(n) <= hi
    ensures AllSame(s, Matches(e, n, back, cc, s), lo, hi)
    decreases n, 0, 0, 0
  {
    hide Matches, MatchChar, MatchBackRef, MatchesAll, Repeat, OptionalAll, SaveAll, SaveSlot, StartState, InText,
      AllSame, SameOutside, LookOutcomes, AllWithin;
    match n
    case Cat(a, b) =>
      CatMatches(e, n, back, cc, s);
      if back {
        MatchFrame(e, b, back, cc + Groups(a), s, lo, hi);
        MatchesAllFrame(e, a, back, cc, s.pos, Matches(e, b, back, cc + Groups(a), s), s, lo, hi);
      } else {
        MatchFrame(e, a, back, cc, s, lo, hi);
        MatchesAllFrame(e, b, back, cc + Groups(a), s.pos, Matches(e, a, back, cc, s), s, lo, hi);
      }
    case Alt(a, b) =>
      AltMatches(e, n, back, cc, s);
      MatchFrame(e, a, back, cc, s, lo, hi);
      MatchFrame(e, b, back, cc + Groups(a), s, lo, hi);
      AllSameConcat(s, Matches(e, a, back, cc, s), Matches(e, b, back, cc + Groups(a), s), lo, hi);
    case Capture(a) =>
      CaptureMatches(e, a, back, cc, s);
      CapsFit(e, s);
      var first, last := 2 * cc + if back then 1 else 0, 2 * cc + if back then 0 else 1;
      var rs := Matches(e, a, back, cc + 1, SaveSlot(s, first));
      SaveFrame(s, first, lo, hi);
      MatchFrame(e, a, back, cc + 1, SaveSlot(s, first), lo, hi);
      AllSameTrans(s, SaveSlot(s, first), rs, lo, hi);
      SaveAllFrame(s, rs, last, lo, hi);
    case BackRef(idx) =>
      BackRefMatches(e, idx, back, cc, s);
      BackRefFrame(e, idx, back, s, lo, hi);
    case Look(a, neg, behind) =>
      LookMatches(e, a, neg, behind, back, cc, s);
      MatchFrame(e, a, behind, cc, s, lo, hi);
      LookFrame(s, neg, Matches(e, a, behind, cc, s), lo, hi);
    case Quant(a, min, max, greedy) =>
      QuantifierMatches(e, n, back, cc, s);
      CapsFit(e, s);
      StartFrame(n, cc, s, lo, hi);
      RepeatFrame(e, a, back, cc, min, s.pos, [StartState(n, cc, s)], s, lo, hi);
      OptionalAllFrame(e, a, back, cc, if max == INFINITE then None else Some(max - min), greedy, s.pos,
                       Room(e, back, s.pos) + 1, Repeat(e, a, back, cc, min, s.pos, [StartState(n, cc, s)]), s, lo, hi);
    case _ => LeafFrame(e, n, back, cc, s, lo, hi);
  }

  lemma {:induction false} MatchesAllFrame(e: Env, n: Node, back: bool, cc: nat, from: nat, rs: seq<State>,
                                           s: State, lo: nat, hi: nat)
    requires ValidNode(n) && cc + Groups(n) <= e.captureCount && AllWithin(e, back, from, rs)
    requires lo <= cc && cc + Groups(n) <= hi && AllSame(s, rs, lo, hi)
    ensures AllSame(s, MatchesAll(e, n, back, cc, from, rs), lo, hi)
    decreases n, 1, 0, |rs|
  {
    hide Matches, AllSame, SameOutside, InText, Groups, ValidNode;
    if rs == [] {
      AllSameOne(s, s, lo, hi);
    } else {
      AllSameRest(s, rs, lo, hi);
      MatchFrame(e, n, back, cc, rs[0], lo, hi);
      AllSameTrans(s, rs[0], Matches(e, n, back, cc, rs[0]), lo, hi);
      MatchesAllFrame(e, n, back, cc, from, rs[1..], s, lo, hi);
      AllSameConcat(s, Matches(e, n, back, cc, rs[0]), MatchesAll(e, n, back, cc, from, rs[1..]), lo, hi);
    }
  }

  lemma {:induction false} RepeatFrame(e: Env, a: Node, back: bool, cc: nat, n: nat, from: nat, rs: seq<State>,
                                       s: State, lo: nat, hi: nat)
    requires ValidNode(a) && cc + Groups(a) <= e.captureCount && AllWithin(e, back, from, rs)
    requires lo <= cc && cc + Groups(a) <= hi && AllSame(s, rs, lo, hi)
    ensures AllSame(s, Repeat(e, a, back, cc, n, from, rs), lo, hi)
    decreases a, 2, n, 0
  {
    hide Matches, MatchesAll, AllSame, SameOutside, InText, Groups, ValidNode;
    if n > 0 {
      MatchesAllFrame(e, a, back, cc, from, rs, s, lo, hi);
      RepeatFrame(e, a, back, cc, n - 1, from, MatchesAll(e, a, back, cc, from, rs), s, lo, hi);
    }
  }

  lemma {:induction false} OptionalFrame(e: Env, a: Node, back: bool, cc: nat, more: Option<nat>, greedy: bool,
                                         s: State, lo: nat, hi: nat)
    requires ValidNode(a) && cc + Groups(a) <= e.captureCount && InText(e, s) && lo <= cc && cc + Groups(a) <= hi
    ensures AllSame(s, Optional(e, a, back, cc, more, greedy, s), lo, hi)
    decreases a, 2, 2 * Room(e, back, s.pos) + 1, 0
  {
    hide Matches, OptionalAll, AllSame, SameOutside, Groups, ValidNode;
    AllSameOne(s, s, lo, hi);
    if more != Some(0) {
      var rs := Advancing(Matches(e, a, back, cc, s), s.pos);
      MatchFrame(e, a, back, cc, s, lo, hi);
      AdvancingFrame(s, Matches(e, a, back, cc, s), s.pos, lo, hi);
      OptionalAllFrame(e, a, back, cc, Fewer(more), greedy, s.pos, Room(e, back, s.pos), rs, s, lo, hi);
      var tail := OptionalAll(e, a, back, cc, Fewer(more), greedy, s.pos, Room(e, back, s.pos), rs);
      AllSameConcat(s, tail, [s], lo, hi);
      AllSameConcat(s, [s], tail, lo, hi);
    }
  }

  lemma {:induction false} OptionalAllFrame(e: Env, a: Node, back: bool, cc: nat, more: Option<nat>, greedy: bool,
                                            from: nat, room: nat, rs: seq<State>, s: State, lo: nat, hi: nat)
    requires ValidNode(a) && cc + Groups(a) <= e.captureCount && AllWithin(e, back, from, rs)
    requires forall k :: 0 <= k < |rs| ==> Room(e, back, rs[k].pos) < room
    requires lo <= cc && cc + Groups(a) <= hi && AllSame(s, rs, lo, hi)
    ensures AllSame(s, OptionalAll(e, a, back, cc, more, greedy, from, room, rs), lo, hi)
    decreases a, 2, 2 * room, |rs|
  {
    hide Optional, AllSame, SameOutside, InText, Groups, ValidNode;
    if rs == [] {
      AllSameOne(s, s, lo, hi);
    } else {
      AllSameRest(s, rs, lo, hi);
      OptionalFrame(e, a, back, cc, more, greedy, rs[0], lo, hi);
      AllSameTrans(s, rs[0], Optional(e, a, back, cc, more, greedy, rs[0]), lo, hi);
      OptionalAllFrame(e, a, back, cc, more, greedy, from, room, rs[1..], s, lo, hi);
      AllSameConcat(s, Optional(e, a, back, cc, more, greedy, rs[0]),
                    OptionalAll(e, a, back, cc, more, greedy, from, room, rs[1..]), lo, hi);
    }
  }

  /** A group records where the match of its body starts and ends in the text, whatever the direction. */
  lemma CaptureMeaning(e: Env, a: Node, back: bool, cc: nat, s: State, k: nat)
    requires ValidNode(a) && cc + 1 + Groups(a) <= e.captureCount && InText(e, s)
    requires ValidNode(Node.Capture(a)) && Groups(Node.Capture(a)) == 1 + Groups(a)
    requires k < |Matches(e, Node.Capture(a), back, cc, s)|
    ensures var r := Matches(e, Node.Capture(a), back, cc, s)[k];
      && |r.caps| == 2 * e.captureCount
      && r.caps[2 * cc] == Some(if back then r.pos else s.pos)
      && r.caps[2 * cc + 1] == Some(if back then s.pos else r.pos)
  {
    hide Matches, ValidNode, InText, AllSame;
    CaptureMatches(e, a, back, cc, s);
    CapsFit(e, s);
    var first, last := 2 * cc + if back then 1 else 0, 2 * cc + if back then 0 else 1;
    var s1 := SaveSlot(s, first);
    var rs := Matches(e, a, back, cc + 1, s1);
    MatchFrame(e, a, back, cc + 1, s1, cc + 1, cc + 1 + Groups(a));
    AllSameAt(s1, rs, cc + 1, cc + 1 + Groups(a), k);
    assert SaveAll(rs, last)[k] == SaveSlot(rs[k], last);
  }

  lemma AllSameAt(s: State, rs: seq<State>, lo: nat, hi: nat, k: nat)
    requires AllSame(s, rs, lo, hi) && k < |rs|
    ensures SameOutside(s, rs[k], lo, hi)
  {
  }

  lemma {:induction false} MatchesAllFrom(e: Env, n: Node, back: bool, cc: nat, from: nat, rs: seq<State>, k: nat)
    returns (j: nat, i: nat)
    requires ValidNode(n) && cc + Groups(n) <= e.captureCount && AllWithin(e, back, from, rs)
    requires k < |MatchesAll(e, n, back, cc, from, rs)|
    ensures j < |rs| && InText(e, rs[j]) && i < |Matches(e, n, back, cc, rs[j])|
    ensures MatchesAll(e, n, back, cc, from, rs)[k] == Matches(e, n, back, cc, rs[j])[i]
    decreases |rs|
  {
    hide Matches, InText, Groups, ValidNode;
    var m := |Matches(e, n, back, cc, rs[0])|;
    if k < m {
      j, i := 0, k;
    } else {
      j, i := MatchesAllFrom(e, n, back, cc, from, rs[1..], k - m);
      j := j + 1;
    }
  }

  /** A group x matched first and then a group y, with other numbers. */
  lemma {:induction false} TwoGroups(e: Env, x: Node, cx: nat, y: Node, cy: nat, back: bool, s: State, k: nat)
    requires x.Capture? && y.Capture? && ValidNode(x) && ValidNode(y) && ValidNode(x.body) && ValidNode(y.body)
    requires Groups(x) == 1 + Groups(x.body) && Groups(y) == 1 + Groups(y.body) && InText(e, s)
    requires cx + Groups(x) <= e.captureCount && cy + Groups(y) <= e.captureCount
    requires cx + Groups(x) <= cy || cy + Groups(y) <= cx
    requires k < |MatchesAll(e, y, back, cy, s.pos, Matches(e, x, back, cx, s))|
    ensures var r := MatchesAll(e, y, back, cy, s.pos, Matches(e, x, back, cx, s))[k];
      && |r.caps| == 2 * e.captureCount
      && r.caps[2 * cx + if back then 1 else 0] == Some(s.pos)
      && r.caps[2 * cx + if back then 0 else 1] == r.caps[2 * cy + if back then 1 else 0]
      && r.caps[2 * cy + if back then 0 else 1] == Some(r.pos)
  {
    hide Matches, MatchesAll, InText, AllSame, ValidNode, Groups, AllWithin;
    var rs := Matches(e, x, back, cx, s);
    var j, i := MatchesAllFrom(e, y, back, cy, s.pos, rs, k);
    CaptureMeaning(e, x.body, back, cx, s, j);
    CaptureMeaning(e, y.body, back, cy, rs[j], i);
    MatchFrame(e, y, back, cy, rs[j], cy, cy + Groups(y));
    AllSameAt(rs[j], Matches(e, y, back, cy, rs[j]), cy, cy + Groups(y), i);
  }

  /** Of two groups in a row the first one has the lower number, and the second one starts where the first one ends,
      in either direction. */
  lemma GroupsInOrder(e: Env, a: Node, b: Node, back: bool, cc: nat, s: State, k: nat)
    requires ValidNode(a) && ValidNode(b) && cc + 2 + Groups(a) + Groups(b) <= e.captureCount && InText(e, s)
    requires var n := Node.Cat(Node.Capture(a), Node.Capture(b));
      ValidNode(n) && Groups(n) == 2 + Groups(a) + Groups(b) && k < |Matches(e, n, back, cc, s)|
    ensures var n, c2 := Node.Cat(Node.Capture(a), Node.Capture(b)), cc + 1 + Groups(a);
      var r := Matches(e, n, back, cc, s)[k];
      && |r.caps| == 2 * e.captureCount
      && r.caps[2 * cc] == Some(if back then r.pos else s.pos)
      && r.caps[2 * cc + 1] == r.caps[2 * c2]
      && r.caps[2 * c2 + 1] == Some(if back then s.pos else r.pos)
  {
    hide Matches, MatchesAll, InText, AllWithin;
    var x, y, c2 := Node.Capture(a), Node.Capture(b), cc + 1 + Groups(a);
    CatMatches(e, Node.Cat(x, y), back, cc, s);
    if back {
      TwoGroups(e, y, c2, x, cc, back, s, k);
    } else {
      TwoGroups(e, x, cc, y, c2, back, s, k);
    }
  }

  // ---- quantifiers ----

  /** The same place, with the groups numbered from lo to hi forgotten and the others kept. */
  ghost predicate Cleared(s: State, r: State, lo: nat, hi: nat) {
    && r.pos == s.pos && |r.caps| == |s.caps|
    && forall i :: 0 <= i < |s.caps| ==> r.caps[i] == if 2 * lo <= i < 2 * hi then None else s.caps[i]
  }

  lemma StartCleared(n: Node, cc: nat, s: State)
    requires n.Quant? && n.min == 0
    ensures Cleared(s, StartState(n, cc, s), cc, cc + Groups(n.atom))
  {
  }

  /** A quantifier that may be skipped can be matched by no iteration: this is its last choice if it is greedy, the
      first one otherwise. The groups inside are then forgotten, and the others are unchanged. */
  lemma {:induction false} SkipMeaning(e: Env, a: Node, max: nat, greedy: bool, back: bool, cc: nat, s: State)
    requires ValidNode(Node.Quant(a, 0, max, greedy)) && cc + Groups(Node.Quant(a, 0, max, greedy)) <= e.captureCount
    requires InText(e, s)
    ensures var rs := Matches(e, Node.Quant(a, 0, max, greedy), back, cc, s);
      && rs != [] && (max == 0 ==> |rs| == 1)
      && Cleared(s, if greedy then rs[|rs| - 1] else rs[0], cc, cc + Groups(a))
  {
    hide Matches, MatchesAll, InText, AllWithin, Cleared, StartState, ValidNode, Groups;
    var n := Node.Quant(a, 0, max, greedy);
    QuantifierMatches(e, n, back, cc, s);
    CapsFit(e, s);
    var c := StartState(n, cc, s);
    StartCleared(n, cc, s);
    assert Repeat(e, a, back, cc, 0, s.pos, [c]) == [c];
    OneStart(e, a, back, cc, if max == INFINITE then None else Some(max), greedy, s.pos, Room(e, back, s.pos) + 1, c);
  }

  lemma {:induction false} OneStart(e: Env, a: Node, back: bool, cc: nat, more: Option<nat>, greedy: bool, from: nat,
                                    room: nat, c: State)
    requires ValidNode(a) && cc + Groups(a) <= e.captureCount && AllWithin(e, back, from, [c])
    requires c.pos <= |e.text.units| && Room(e, back, c.pos) < room
    ensures var rs := OptionalAll(e, a, back, cc, more, greedy, from, room, [c]);
      rs != [] && (more == Some(0) ==> rs == [c]) && (if greedy then rs[|rs| - 1] else rs[0]) == c
  {
    hide Matches, InText, Groups, ValidNode;
    assert InText(e, [c][0]);
    var one := Optional(e, a, back, cc, more, greedy, c);
    var rs := OptionalAll(e, a, back, cc, more, greedy, from, room, [c]);
    assert OptionalAll(e, a, back, cc, more, greedy, from, room, []) == [];
    assert [c][1..] == [];
    assert rs == one + [];
  }

  /** All its matches start from the forgotten groups: what the groups inside held before makes no difference. */
  lemma {:induction false} QuantifierForgets(e: Env, a: Node, max: nat, greedy: bool, back: bool, cc: nat,
                                             s: State, c: State)
    requires ValidNode(Node.Quant(a, 0, max, greedy)) && cc + Groups(Node.Quant(a, 0, max, greedy)) <= e.captureCount
    requires InText(e, s) && InText(e, c) && Cleared(s, c, cc, cc + Groups(a))
    ensures Matches(e, Node.Quant(a, 0, max, greedy), back, cc, s)
         == Matches(e, Node.Quant(a, 0, max, greedy), back, cc, c)
  {
    hide Matches, MatchesAll, Repeat, OptionalAll, InText, AllWithin, ValidNode, Groups;
    var n := Node.Quant(a, 0, max, greedy);
    QuantifierMatches(e, n, back, cc, s);
    QuantifierMatches(e, n, back, cc, c);
    SameStart(n, cc, s, c);
  }

  lemma SameStart(n: Node, cc: nat, s: State, c: State)
    requires n.Quant? && n.min == 0 && Cleared(s, c, cc, cc + Groups(n.atom))
    ensures StartState(n, cc, s) == StartState(n, cc, c)
  {
    StartCleared(n, cc, s);
    StartCleared(n, cc, c);
    assert StartState(n, cc, s).caps == StartState(n, cc, c).caps;
  }

  // ---- back references ----

  lemma {:induction false} UnitChars(t: Text, a: nat, b: nat)
    requires !t.utf16 && a <= b <= |t.units|
    ensures |Chars(t, a, b)| == b - a && forall i :: 0 <= i < b - a ==> Chars(t, a, b)[i] == t.units[a + i]
    decreases b - a
  {
    if a < b {
      UnitChars(t, a + 1, b);
      assert Chars(t, a, b) == [t.units[a]] + Chars(t, a + 1, b);
    }
  }

  lemma {:induction false} UnitSteps(t: Text, p: nat, n: nat)
    requires !t.utf16 && p <= |t.units|
    ensures Forward(t, p, n) == if p + n <= |t.units| then Some(p + n) else None
    ensures Backward(t, p, n) == if n <= p then Some((p - n) as nat) else None
    decreases n
  {
    if n > 0 && p < |t.units| {
      UnitSteps(t, p + 1, n - 1);
    }
    if n > 0 && p > 0 {
      UnitSteps(t, p - 1, n - 1);
    }
  }

  lemma SameUnits(t: Text, a: nat, b: nat, c: nat)
    requires !t.utf16 && a <= b <= |t.units| && c + (b - a) <= |t.units|
    ensures Chars(t, c, c + (b - a)) == Chars(t, a, b) <==> t.units[c..c + (b - a)] == t.units[a..b]
  {
    hide Chars;
    UnitChars(t, a, b);
    UnitChars(t, c, c + (b - a));
    var x, y, u, v := Chars(t, a, b), Chars(t, c, c + (b - a)), t.units[a..b], t.units[c..c + (b - a)];
    forall i | 0 <= i < b - a
      ensures x[i] == u[i] && y[i] == v[i]
    {
      assert t.units[a + i] == u[i] && t.units[c + i] == v[i];
    }
    if u == v {
      assert x == y;
    }
    if x == y {
      assert u == v;
    }
  }

  lemma NoFolding(f: Flags, cs: seq<codepoint>)
    requires !f.ignoreCase
    ensures FoldAll(f, cs) == cs
  {
  }

  /** A back reference, when case counts and units are characters: the units of the group follow, or precede when
      matching backward. A group that is not set matches the empty text, and one that does not exist nothing. */
  lemma BackRefMeaning(e: Env, idx: u8, back: bool, cc: nat, s: State)
    requires cc <= e.captureCount && InText(e, s) && !e.flags.ignoreCase && !e.text.utf16
    ensures var t, rs := e.text.units, Matches(e, Node.BackRef(idx), back, cc, s);
      if idx as nat >= e.captureCount then rs == []
      else if s.caps[2 * (idx as nat)].None? || s.caps[2 * (idx as nat) + 1].None? then rs == [s]
      else
        var a, b := s.caps[2 * (idx as nat)].value, s.caps[2 * (idx as nat) + 1].value;
        if a >= b then rs == [s]
        else if back then
          rs == if b - a <= s.pos && t[s.pos - (b - a)..s.pos] == t[a..b] then [State(s.pos - (b - a), s.caps)] else []
        else
          rs == if s.pos + (b - a) <= |t| && t[s.pos..s.pos + (b - a)] == t[a..b]
                then [State(s.pos + (b - a), s.caps)] else []
  {
    hide Matches, Chars, Forward, Backward, FoldAll;
    BackRefMatches(e, idx, back, cc, s);
    var i: nat := idx;
    if i < e.captureCount && s.caps[2 * i].Some? && s.caps[2 * i + 1].Some? {
      var a, b := s.caps[2 * i].value, s.caps[2 * i + 1].value;
      if a < b {
        AgainUnits(e, back, a, b, s.pos);
      }
    }
  }

  lemma AgainUnits(e: Env, back: bool, a: nat, b: nat, p: nat)
    requires !e.flags.ignoreCase && !e.text.utf16 && a < b <= |e.text.units| && p <= |e.text.units|
    ensures var t := e.text.units;
      Again(e, back, a, b, p) ==
        if back then
          (if b - a <= p && t[p - (b - a)..p] == t[a..b] then Some((p - (b - a)) as nat) else None)
        else if p + (b - a) <= |t| && t[p..p + (b - a)] == t[a..b] then Some(p + (b - a)) else None
  {
    hide Chars, Forward, Backward, FoldAll;
    UnitChars(e.text, a, b);
    UnitSteps(e.text, p, b - a);
    NoFolding(e.flags, Chars(e.text, a, b));
    if back {
      if b - a <= p {
        SameUnits(e.text, a, b, p - (b - a));
        NoFolding(e.flags, Chars(e.text, p - (b - a), p));
      }
    } else if p + (b - a) <= |e.text.units| {
      SameUnits(e.text, a, b, p);
      NoFolding(e.flags, Chars(e.text, p, p + (b - a)));
    }
  }
}
