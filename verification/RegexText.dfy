/** The subject of a match: a buffer of 8- or 16-bit units, read unit by unit or, in UTF-16
    mode, character by character. */
module RegexText {
  import opened Bytes
  import opened RegexCode

  type codepoint = c: int | 0 <= c < 0x11_0000

  datatype Text = Text(units: seq<u16>, utf16: bool)

  predicate IsHiSurrogate(c: int) { 0xD800 <= c < 0xDC00 }

  predicate IsLoSurrogate(c: int) { 0xDC00 <= c < 0xE000 }

  function FromSurrogate(hi: int, lo: int): (r: codepoint)
    requires IsHiSurrogate(hi) && IsLoSurrogate(lo)
    ensures 0x1_0000 <= r
  {
    0x1_0000 + 0x400 * (hi - 0xD800) + (lo - 0xDC00)
  }

  /** In UTF-16 mode, the units at `p` and `p + 1` form one character below `end`. */
  predicate PairAt(t: Text, p: nat, end: nat)
    requires end <= |t.units|
  {
    t.utf16 && p + 1 < end && IsHiSurrogate(t.units[p]) && IsLoSurrogate(t.units[p + 1])
  }

  /** The character read at `p`. */
  function CharAt(t: Text, p: nat, end: nat): (c: codepoint)
    requires p < end <= |t.units|
  {
    if PairAt(t, p, end) then FromSurrogate(t.units[p], t.units[p + 1]) else t.units[p]
  }

  /** The position after the character read at `p`. */
  function NextPos(t: Text, p: nat, end: nat): (q: nat)
    requires p < end <= |t.units|
    ensures p < q <= end
  {
    if PairAt(t, p, end) then p + 2 else p + 1
  }

  /** The position of the character that ends at `p`. */
  function PrevPos(t: Text, p: nat, start: nat): (q: nat)
    requires start < p <= |t.units|
    ensures start <= q < p
  {
    if start + 2 <= p && PairAt(t, p - 2, p) then p - 2 else p - 1
  }

  /** The character that ends at `p`. */
  function CharBefore(t: Text, p: nat, start: nat): (c: codepoint)
    requires start < p <= |t.units|
  {
    if start + 2 <= p && PairAt(t, p - 2, p) then FromSurrogate(t.units[p - 2], t.units[p - 1]) else t.units[p - 1]
  }

  /** `p` does not sit between the two halves of a surrogate pair. */
  predicate Boundary(t: Text, p: nat) {
    p <= |t.units| && (p == 0 || !PairAt(t, p - 1, |t.units|))
  }

  lemma NextKeepsBoundary(t: Text, p: nat, end: nat)
    requires p < end <= |t.units| && Boundary(t, p) && Boundary(t, end)
    ensures Boundary(t, NextPos(t, p, end))
    ensures NextPos(t, p, end) == NextPos(t, p, |t.units|)
    ensures CharAt(t, p, end) == CharAt(t, p, |t.units|)
  {
  }

  lemma PrevKeepsBoundary(t: Text, p: nat, start: nat)
    requires start < p <= |t.units| && Boundary(t, p) && Boundary(t, start)
    ensures Boundary(t, PrevPos(t, p, start))
    ensures PrevPos(t, p, start) == PrevPos(t, p, 0)
    ensures CharBefore(t, p, start) == CharBefore(t, p, 0)
  {
  }

  /** Stepping back over a character that was just read returns to where it was read,
      if and only if reading began on a character boundary. */
  lemma PrevUndoesNext(t: Text, p: nat)
    requires p < |t.units|
    ensures PrevPos(t, NextPos(t, p, |t.units|), 0) == p <==> Boundary(t, p)
  {
  }

  lemma NextUndoesPrev(t: Text, p: nat)
    requires 0 < p && Boundary(t, p)
    ensures NextPos(t, PrevPos(t, p, 0), |t.units|) == p
    ensures CharAt(t, PrevPos(t, p, 0), |t.units|) == CharBefore(t, p, 0)
  {
  }

  /** The characters from `a` to `b`. */
  function Chars(t: Text, a: nat, b: nat): (cs: seq<codepoint>)
    requires b <= |t.units|
    decreases b - a
  {
    if a >= b then [] else [CharAt(t, a, b)] + Chars(t, NextPos(t, a, b), b)
  }

  /** The position `n` characters further on, if there are that many. */
  function Forward(t: Text, p: nat, n: nat): (r: Option<nat>)
    requires p <= |t.units|
    ensures r.Some? ==> p <= r.value <= |t.units|
    decreases n
  {
    if n == 0 then Some(p)
    else if p == |t.units| then None
    else Forward(t, NextPos(t, p, |t.units|), n - 1)
  }

  /** The position `n` characters back, if there are that many. */
  function Backward(t: Text, p: nat, n: nat): (r: Option<nat>)
    requires p <= |t.units|
    ensures r.Some? ==> r.value <= p
    decreases n
  {
    if n == 0 then Some(p)
    else if p == 0 then None
    else Backward(t, PrevPos(t, p, 0), n - 1)
  }

  lemma {:induction false} ForwardBoundary(t: Text, p: nat, n: nat)
    requires Boundary(t, p) && Forward(t, p, n).Some?
    ensures Boundary(t, Forward(t, p, n).value)
    ensures n > 0 ==> p < Forward(t, p, n).value
    decreases n
  {
    if n > 0 {
      NextKeepsBoundary(t, p, |t.units|);
      ForwardBoundary(t, NextPos(t, p, |t.units|), n - 1);
    }
  }

  lemma {:induction false} BackwardBoundary(t: Text, p: nat, n: nat)
    requires Boundary(t, p) && Backward(t, p, n).Some?
    ensures Boundary(t, Backward(t, p, n).value)
    decreases n
  {
    if n > 0 {
      PrevKeepsBoundary(t, p, 0);
      BackwardBoundary(t, PrevPos(t, p, 0), n - 1);
    }
  }

  lemma {:induction false} ForwardSplit(t: Text, p: nat, m: nat, n: nat)
    requires p <= |t.units|
    ensures Forward(t, p, m + n)
         == if Forward(t, p, m).Some? then Forward(t, Forward(t, p, m).value, n) else None
    decreases m
  {
    if m > 0 && p < |t.units| {
      ForwardSplit(t, NextPos(t, p, |t.units|), m - 1, n);
    }
  }

  /** Going forward and then back by as many characters returns to the starting boundary. */
  lemma {:induction false} BackwardUndoesForward(t: Text, p: nat, n: nat)
    requires Boundary(t, p) && Forward(t, p, n).Some?
    ensures Backward(t, Forward(t, p, n).value, n) == Some(p)
    decreases n
  {
    if n > 0 {
      ForwardSplit(t, p, n - 1, 1);
      var q := Forward(t, p, n - 1).value;
      assert Forward(t, q, 1) == Forward(t, p, n);
      assert q < |t.units|;
      assert Forward(t, NextPos(t, q, |t.units|), 0) == Some(NextPos(t, q, |t.units|));
      ForwardBoundary(t, p, n - 1);
      PrevUndoesNext(t, q);
      BackwardUndoesForward(t, p, n - 1);
    }
  }

  /** Between the halves of a pair, reading goes on as from the first half. */
  lemma {:induction false} ForwardFromInside(t: Text, p: nat, n: nat)
    requires p <= |t.units| && !Boundary(t, p) && n >= 1
    ensures p >= 1 && Boundary(t, p - 1) && Forward(t, p - 1, n) == Forward(t, p, n)
  {
    assert NextPos(t, p - 1, |t.units|) == p + 1 == NextPos(t, p, |t.units|);
  }

  /** Going forward and then back by as many characters returns to the start if that is a character boundary, and to
      the start of its character otherwise. */
  lemma ForwardThenBack(t: Text, p: nat, n: nat)
    requires p <= |t.units| && n >= 1 && Forward(t, p, n).Some?
    ensures Boundary(t, Forward(t, p, n).value)
    ensures Backward(t, Forward(t, p, n).value, n) == Some(if Boundary(t, p) then p else p - 1)
  {
    hide Boundary, Forward, Backward;
    if Boundary(t, p) {
      ForwardBoundary(t, p, n);
      BackwardUndoesForward(t, p, n);
    } else {
      ForwardFromInside(t, p, n);
      ForwardBoundary(t, p - 1, n);
      BackwardUndoesForward(t, p - 1, n);
    }
  }

  /** The text returns to where it was read if and only if reading began on a character boundary. */
  lemma BackReturnsIff(t: Text, p: nat, n: nat)
    requires p <= |t.units| && n >= 1 && Forward(t, p, n).Some?
    ensures Backward(t, Forward(t, p, n).value, n) == Some(p) <==> Boundary(t, p)
  {
    hide Boundary, Forward, Backward;
    ForwardThenBack(t, p, n);
  }
}
