/** Parsing decimal numbers. */
module Atod {
  import opened Bytes
  import opened Powers
  import opened Limbs
  import opened Division
  import opened Rounding
  import opened Bignum
  import opened RadixPower
  import opened Doubles
  import opened ToDouble
  import opened Decimals
  import opened Shortest
  import opened FreeFormat

  // ---- decimal literals ----

  type Digit = d: nat | d < 10

  datatype Sign = Unsigned | Plus | Minus

  datatype Exponent = NoExponent | Exponent(upper: bool, sign: Sign, digits: seq<Digit>)

  /** A decimal number as it is written. */
  datatype Literal = Literal(sign: Sign, whole: seq<Digit>, dot: bool, frac: seq<Digit>, exp: Exponent)

  /** The natural number a sequence of digits stands for. */
  function Nat(ds: seq<Digit>): (r: nat) {
    if ds == [] then 0 else 10 * Nat(ds[..|ds| - 1]) + ds[|ds| - 1]
  }

  /** A literal has a digit, a fraction only after a dot, and a digit in its exponent. */
  predicate WellFormed(l: Literal) {
    && |l.whole| + |l.frac| >= 1
    && (!l.dot ==> l.frac == [])
    && (l.exp.Exponent? ==> l.exp.digits != [])
  }

  function DigitChar(d: Digit): char {
    (48 + d) as char
  }

  function DigitChars(ds: seq<Digit>): (r: string)
    ensures |r| == |ds| && forall i :: 0 <= i < |r| ==> r[i] == DigitChar(ds[i])
  {
    seq(|ds|, i requires 0 <= i < |ds| => DigitChar(ds[i]))
  }

  function SignChars(g: Sign): string {
    match g
    case Unsigned => ""
    case Plus => "+"
    case Minus => "-"
  }

  function ExpChars(x: Exponent): string {
    match x
    case NoExponent => ""
    case Exponent(upper, sign, digits) => (if upper then "E" else "e") + SignChars(sign) + DigitChars(digits)
  }

  function Render(l: Literal): string {
    SignChars(l.sign) + DigitChars(l.whole) + (if l.dot then "." else "") + DigitChars(l.frac) + ExpChars(l.exp)
  }

  function ExpValue(x: Exponent): int {
    match x
    case NoExponent => 0
    case Exponent(_, sign, digits) => if sign == Minus then -(Nat(digits) as int) else Nat(digits)
  }

  /** All digits, those before the dot and those after it. */
  function AllDigits(l: Literal): seq<Digit> {
    l.whole + l.frac
  }

  /** The number of zeros at the start of the digits. */
  function Leading(ds: seq<Digit>): (r: nat)
    ensures r <= |ds| && (forall i :: 0 <= i < r ==> ds[i] == 0) && (r < |ds| ==> ds[r] != 0)
  {
    if ds == [] || ds[0] != 0 then 0 else 1 + Leading(ds[1..])
  }

  // ---- reading characters ----

  /** The string ends with a zero character. */
  function At(s: string, i: int): (c: char) {
    if 0 <= i < |s| then s[i] else '\0'
  }

  function ToDigit(c: char): (r: nat) {
    if '0' <= c <= '9' then c as int - '0' as int
    else if 'A' <= c <= 'Z' then c as int - 'A' as int + 10
    else if 'a' <= c <= 'z' then c as int - 'a' as int + 10
    else 36
  }

  lemma ToDigitOfChar(d: Digit)
    ensures ToDigit(DigitChar(d)) == d && DigitChar(d) != '.' && (DigitChar(d) == '0' <==> d == 0)
  {
  }

  /** The scan stands before digit `pos` of the literal that starts at `start`; a dot has been passed if
      dotPos is not -1. */
  ghost predicate Here(l: Literal, start: nat, p: int, pos: int, dotPos: int) {
    && 0 <= pos <= |l.whole| + |l.frac|
    && (dotPos == -1 ==> p == start + pos && pos <= |l.whole|)
    && (dotPos != -1 ==> l.dot && dotPos == |l.whole| && pos >= |l.whole| && p == start + 1 + pos)
  }

  /** The dot has been passed if the scan has reached it. */
  ghost predicate PastDot(l: Literal, pos: int, dotPos: int) {
    l.dot && pos >= |l.whole| ==> dotPos != -1
  }

  /** The first character of the exponent. */
  function ExpChar(x: Exponent): char
    requires x.Exponent?
  {
    if x.upper then 'E' else 'e'
  }

  /** The character does not continue the literal. */
  predicate Ends(l: Literal, c: char) {
    ToDigit(c) >= 10 && (l.exp.NoExponent? ==> c != 'e' && c != 'E' && (c == '.' ==> l.dot))
  }

  /** What the scan of `s` is about: a well-formed literal at the start of `s`, whose digits begin at `start`, up to
      a character that does not continue it. */
  ghost predicate Scans(s: string, l: Literal, start: nat) {
    && Render(l) <= s && Ends(l, At(s, |Render(l)|))
    && WellFormed(l) && start == |SignChars(l.sign)|
  }

  lemma RenderedAt(s: string, l: Literal, i: nat)
    requires Render(l) <= s
    ensures i < |Render(l)| ==> At(s, i) == Render(l)[i]
  {
  }

  lemma CharAtDot(s: string, l: Literal, p: int, pos: int, dotPos: int)
    requires Scans(s, l, |SignChars(l.sign)|) && Here(l, |SignChars(l.sign)|, p, pos, dotPos)
    requires !PastDot(l, pos, dotPos)
    ensures At(s, p) == '.' && (p > |SignChars(l.sign)| || ToDigit(At(s, p + 1)) < 10)
  {
    RenderedAt(s, l, p);
    RenderedAt(s, l, p + 1);
    if l.whole == [] {
      ToDigitOfChar(l.frac[0]);
      assert Render(l)[p + 1] == DigitChar(l.frac[0]);
    }
  }

  lemma CharAtDigit(s: string, l: Literal, p: int, pos: int, dotPos: int)
    requires Scans(s, l, |SignChars(l.sign)|) && Here(l, |SignChars(l.sign)|, p, pos, dotPos)
    requires PastDot(l, pos, dotPos)
    ensures pos < |AllDigits(l)| ==> At(s, p) == DigitChar(AllDigits(l)[pos])
    ensures pos == |AllDigits(l)| ==>
      At(s, p) == if l.exp.Exponent? then ExpChar(l.exp) else At(s, |Render(l)|)
    ensures pos == |AllDigits(l)| ==> p > |SignChars(l.sign)|
  {
    RenderedAt(s, l, p);
  }

  // ---- scanning the digits ----

  /** The dot is skipped when it is followed or preceded by something. */
  predicate DotAt(s: string, start: nat, p: int) {
    At(s, p) == '.' && (p > start || ToDigit(At(s, p + 1)) < 10)
  }

  /** The characters from `start` to `p` are `pos` digits and at most one dot, before digit `dotPos`. A dot at the
      start has a digit behind it. */
  ghost predicate Passed(s: string, start: nat, p: int, pos: int, dotPos: int) {
    && -1 <= dotPos <= pos && pos >= 0
    && p == start + pos + (if dotPos >= 0 then 1 else 0)
    && (forall i :: start <= i < p ==>
         if dotPos >= 0 && i == start + dotPos then At(s, i) == '.' else ToDigit(At(s, i)) < 10)
    && (dotPos == 0 && pos == 0 ==> ToDigit(At(s, p)) < 10)
  }

  /** Neither a digit nor a first dot follows. */
  predicate Stopped(s: string, start: nat, p: int, dotPos: int) {
    ToDigit(At(s, p)) >= 10 && (dotPos < 0 ==> !DotAt(s, start, p))
  }

  /** A dot is found where the literal has its own, or behind a literal that has one already. */
  lemma NoOtherDot(s: string, l: Literal, start: nat, p: int, pos: int, dotPos: int)
    requires Scans(s, l, start) && Here(l, start, p, pos, dotPos)
    ensures !PastDot(l, pos, dotPos) ==> DotAt(s, start, p)
    ensures PastDot(l, pos, dotPos) && DotAt(s, start, p) ==> pos == |AllDigits(l)| && dotPos >= 0
  {
    hide Render;
    if PastDot(l, pos, dotPos) {
      CharAtDigit(s, l, p, pos, dotPos);
      if pos < |AllDigits(l)| {
        ToDigitOfChar(AllDigits(l)[pos]);
      }
    } else {
      CharAtDot(s, l, p, pos, dotPos);
    }
  }

  /** What the scan finds past the dot: the next digit, or something that is none. */
  lemma DigitHere(s: string, l: Literal, start: nat, p: int, pos: int, dotPos: int)
    requires Scans(s, l, start) && Here(l, start, p, pos, dotPos) && PastDot(l, pos, dotPos)
    ensures pos < |AllDigits(l)| ==> ToDigit(At(s, p)) == AllDigits(l)[pos]
    ensures pos < |AllDigits(l)| ==> (At(s, p) == '0' <==> AllDigits(l)[pos] == 0)
    ensures pos == |AllDigits(l)| ==> ToDigit(At(s, p)) >= 10 && At(s, p) != '0'
    ensures Here(l, start, p + 1, pos + 1, dotPos) || pos == |AllDigits(l)|
  {
    hide Render;
    CharAtDigit(s, l, p, pos, dotPos);
    if pos < |AllDigits(l)| {
      ToDigitOfChar(AllDigits(l)[pos]);
    }
  }

  /** Pass a dot; a second dot ends the number. */
  method PassDot(s: string, start: nat, p0: int, pos: int, dotPos0: int, ghost l: Literal, ghost good: bool)
    returns (stop: bool, p: int, dotPos: int)
    requires start <= p0 <= |s| + start && pos >= 0 && dotPos0 >= -1
    requires good ==> Scans(s, l, start) && Here(l, start, p0, pos, dotPos0)
    requires Passed(s, start, p0, pos, dotPos0)
    ensures Passed(s, start, p, pos, dotPos) && (dotPos < 0 ==> !DotAt(s, start, p))
    ensures stop <==> DotAt(s, start, p0) && dotPos0 >= 0
    ensures p0 <= p <= |s| + start && dotPos >= -1
    ensures !DotAt(s, start, p0) || stop ==> p == p0 && dotPos == dotPos0
    ensures DotAt(s, start, p0) && !stop ==> dotPos == pos
    ensures good ==> Here(l, start, p, pos, dotPos) && PastDot(l, pos, dotPos) && (stop ==> pos == |AllDigits(l)|)
  {
    hide Render;
    if good {
      NoOtherDot(s, l, start, p0, pos, dotPos0);
    }
    stop, p, dotPos := false, p0, dotPos0;
    if DotAt(s, start, p) {
      if dotPos >= 0 {
        stop := true;
      } else {
        dotPos := pos;
        p := p + 1;
      }
    }
  }

  /** Skip the zeros at the start, and a dot among them. */
  method SkipZeros(s: string, start: nat, ghost l: Literal) returns (p: int, pos: int, dotPos: int)
    ensures start <= p <= |s| + start && pos >= 0 && dotPos >= -1 && At(s, p) != '0'
    ensures DotAt(s, start, p) ==> dotPos >= 0
    ensures Passed(s, start, p, pos, dotPos)
    ensures Scans(s, l, start) ==>
      Here(l, start, p, pos, dotPos) && PastDot(l, pos, dotPos) && pos == Leading(AllDigits(l))
  {
    hide Render;
    p, pos, dotPos := start, 0, -1;
    while true
      invariant start <= p <= |s| + start && pos >= 0 && dotPos >= -1
      invariant Passed(s, start, p, pos, dotPos)
      invariant Scans(s, l, start) ==> Here(l, start, p, pos, dotPos) && pos <= Leading(AllDigits(l))
      decreases |s| + start - p
    {
      var stop;
      stop, p, dotPos := PassDot(s, start, p, pos, dotPos, l, Scans(s, l, start));
      if stop {
        break;
      }
      if Scans(s, l, start) {
        DigitHere(s, l, start, p, pos, dotPos);
      }
      if At(s, p) != '0' {
        break;
      }
      p := p + 1;
      pos := pos + 1;
    }
  }

  // ---- collecting the digits ----

  const MAX_DIGITS := 38
  const DIGITS_IN_LIMB := 9
  const LIMB_BASE: u32 := 1000000000

  lemma TenTo9()
    ensures Pow(10, 9) == LIMB_BASE
  {
    assert Pow(10, 4) == 10000 && Pow(10, 1) == 10;
    PowSum(10, 4, 4, 10000, 10000);
    PowSum(10, 8, 1, 100000000, 10);
  }

  /** 38 digits fit in four limbs. */
  lemma DigitsFitLimbs(n: nat)
    requires n <= MAX_DIGITS
    ensures Pow(10, n) < Pow(2, 128) && Pow(2, 128) == Pow(LIMB, 4)
  {
    PowMonotone(10, n, 38);
    TenTo9();
    PowSum(10, 9, 9, LIMB_BASE, LIMB_BASE);
    PowSum(10, 18, 18, 1000000000000000000, 1000000000000000000);
    PowSum(10, 36, 2, 1000000000000000000000000000000000000, 100) by { assert Pow(10, 2) == 100; }
    Pow2Constants();
    PowSum(2, 32, 32, LIMB, LIMB);
    PowSum(2, 64, 64, LIMB * LIMB, LIMB * LIMB);
    LimbPow(4);
  }

  /** The number collected so far has n digits, the first of them not zero. */
  predicate HasDigits(v: nat, n: nat) {
    v < Pow(10, n) && (n > 0 ==> v >= Pow(10, n - 1))
  }

  lemma OneMoreDigit(v: nat, n: nat, c: nat)
    requires HasDigits(v, n) && c < 10 && (n == 0 ==> c != 0)
    ensures HasDigits(10 * v + c, n + 1)
  {
    hide Pow;
    PowZero(10);
    PowNext(10, n);
    if n > 0 {
      PowNext(10, n - 1);
    }
  }

  /** The limbs and the digits not yet in a limb. */
  ghost predicate Collected(tmp: Mpb, cur: nat, n: nat, v: nat)
    reads tmp, tmp.tab
  {
    && tmp.Valid() && tmp.Normal() && tmp.tab.Length == DBIGNUM_LEN_MAX
    && n < DIGITS_IN_LIMB && cur < Pow(10, n)
    && v == tmp.Value() * Pow(10, n) + cur
  }

  lemma CollectStep(t: nat, cur: nat, n: nat, v: nat, c: nat)
    requires v == t * Pow(10, n) + cur && cur < Pow(10, n) && c < 10
    ensures 10 * v + c == t * Pow(10, n + 1) + (10 * cur + c) && 10 * cur + c < Pow(10, n + 1)
  {
    hide Pow;
    PowNext(10, n);
    assert t * (10 * Pow(10, n)) == 10 * (t * Pow(10, n));
  }

  lemma ShortNumber(s: seq<u32>, v: nat, n: nat)
    requires s != [] && (|s| == 1 || s[|s| - 1] != 0) && Val(s) <= v && HasDigits(v, n) && n <= MAX_DIGITS
    ensures |s| <= 4
  {
    hide Pow, Val;
    DigitsFitLimbs(n);
    if |s| > 1 {
      LenBound(s, 4);
    }
  }

  /** Add a digit to the number. */
  method Collect(tmp: Mpb, cur0: nat, n0: nat, c: nat, ghost v: nat, ghost count: nat) returns (cur: nat, n: nat)
    requires Collected(tmp, cur0, n0, v) && c < 10 && HasDigits(v, count) && count <= MAX_DIGITS
    modifies tmp, tmp.tab
    ensures Collected(tmp, cur, n, 10 * v + c)
  {
    hide Pow, Val;
    CollectStep(tmp.Value(), cur0, n0, v, c);
    cur, n := 10 * cur0 + c, n0 + 1;
    TenTo9();
    PowZero(10);
    PowPositive(10, n0);
    MulMonotone(1, Pow(10, n0), tmp.Value());
    ShortNumber(tmp.tab[..tmp.len], v, count);
    if n == DIGITS_IN_LIMB {
      tmp.MulAdd(LIMB_BASE, cur);
      cur, n := 0, 0;
    }
  }

  /** Move the last digits into the number. */
  method Finish(tmp: Mpb, cur: nat, n: nat, ghost v: nat, ghost count: nat)
    requires Collected(tmp, cur, n, v) && HasDigits(v, count) && count <= MAX_DIGITS
    modifies tmp, tmp.tab
    ensures tmp.Valid() && tmp.Normal() && tmp.tab.Length == DBIGNUM_LEN_MAX && tmp.Value() == v && tmp.len <= 4
  {
    hide Pow, Val;
    PowZero(10);
    PowPositive(10, n);
    MulMonotone(1, Pow(10, n), tmp.Value());
    ShortNumber(tmp.tab[..tmp.len], v, count);
    if n != 0 {
      TenTo9();
      PowMonotone(10, n, 9);
      var base := PowUi(10, n);
      tmp.MulAdd(base, cur);
      ShortNumber(tmp.tab[..tmp.len], v, count);
    }
  }

  lemma NatNext(ds: seq<Digit>, i: nat, j: nat)
    requires i <= j < |ds|
    ensures Nat(ds[i..j + 1]) == 10 * Nat(ds[i..j]) + ds[j]
  {
    var t := ds[i..j + 1];
    assert t[..|t| - 1] == ds[i..j];
  }

  /** The digits that are kept of those from `pos` on: the first 38. */
  function KeptFrom(l: Literal, pos: nat): (r: seq<Digit>)
    requires pos <= |AllDigits(l)|
    ensures |r| == if |AllDigits(l)| - pos <= MAX_DIGITS then |AllDigits(l)| - pos else MAX_DIGITS
  {
    AllDigits(l)[pos..if |AllDigits(l)| - pos <= MAX_DIGITS then |AllDigits(l)| else pos + MAX_DIGITS]
  }

  /** Read the digits after the zeros; beyond 38 they are dropped. */
  method ScanDigits(s: string, start: nat, p0: int, pos0: int, dotPos0: int, tmp: Mpb, ghost l: Literal)
    returns (p: int, pos: int, dotPos: int, count: nat, ghost v: nat)
    requires start <= p0 <= |s| + start && At(s, p0) != '0' && pos0 >= 0 && dotPos0 >= -1
    requires DotAt(s, start, p0) ==> dotPos0 >= 0
    requires Passed(s, start, p0, pos0, dotPos0)
    requires Collected(tmp, 0, 0, 0)
    modifies tmp, tmp.tab
    ensures Passed(s, start, p, pos, dotPos) && Stopped(s, start, p, dotPos)
    ensures start <= p0 <= p && dotPos >= -1 && pos >= 0
    ensures tmp.Valid() && tmp.Normal() && tmp.tab.Length == DBIGNUM_LEN_MAX && tmp.Value() == v && tmp.len <= 4
    ensures count <= MAX_DIGITS && HasDigits(v, count)
    ensures Scans(s, l, start) && Here(l, start, p0, pos0, dotPos0) ==>
      && AtExponent(s, l, start, p, dotPos)
      && pos == |AllDigits(l)| && count == |KeptFrom(l, pos0)| && v == Nat(KeptFrom(l, pos0))
  {
    hide Pow, Val, Render, Collected, HasDigits, Scans, PastDot, Passed;
    p, pos, dotPos, count, v := p0, pos0, dotPos0, 0, 0;
    ghost var good := Scans(s, l, start) && Here(l, start, p0, pos0, dotPos0);
    var cur, n := 0, 0;
    NothingYet();
    while true
      invariant p0 <= p <= |s| + start && dotPos >= -1 && pos >= pos0 && count <= MAX_DIGITS
      invariant Passed(s, start, p, pos, dotPos)
      invariant count == 0 ==> p == p0 && dotPos == dotPos0
      invariant Collected(tmp, cur, n, v) && HasDigits(v, count)
      invariant good ==> Here(l, start, p, pos, dotPos)
      invariant good ==> count == if pos - pos0 <= MAX_DIGITS then pos - pos0 else MAX_DIGITS
      invariant good ==> pos0 + count <= |AllDigits(l)| && v == Nat(AllDigits(l)[pos0..pos0 + count])
      decreases |s| + start - p
    {
      var stop;
      stop, p, dotPos := PassDot(s, start, p, pos, dotPos, l, good);
      if stop {
        break;
      }
      if good {
        DigitHere(s, l, start, p, pos, dotPos);
        if pos < |AllDigits(l)| && count < MAX_DIGITS {
          NatNext(AllDigits(l), pos0, pos);
        }
      }
      var c := ToDigit(At(s, p));
      if c >= 10 {
        break;
      }
      PassedDigit(s, start, p, pos, dotPos);
      p := p + 1;
      pos := pos + 1;
      if count < MAX_DIGITS {
        OneMoreDigit(v, count, c);
        cur, n := Collect(tmp, cur, n, c, v, count);
        v := 10 * v + c;
        count := count + 1;
      }
    }
    Finish(tmp, cur, n, v, count);
  }

  lemma PassedDigit(s: string, start: nat, p: int, pos: int, dotPos: int)
    requires Passed(s, start, p, pos, dotPos) && ToDigit(At(s, p)) < 10
    ensures Passed(s, start, p + 1, pos + 1, dotPos)
  {
  }

  lemma NothingYet()
    ensures HasDigits(0, 0)
  {
  }

  // ---- the exponent ----

  const INT32_MAX := 0x7fff_ffff

  /** Conversion to a 32-bit integer. */
  function Int32(x: int): (r: int)
    ensures -0x8000_0000 <= r <= INT32_MAX
  {
    (x + 0x8000_0000) % 0x1_0000_0000 - 0x8000_0000
  }

  /** The digits the conversion keeps: after the zeros at the start, the first 38. */
  function Kept(l: Literal): (r: seq<Digit>) {
    KeptFrom(l, Leading(AllDigits(l)))
  }

  /** The power of ten that the kept digits are multiplied with. */
  function Scale(l: Literal): int {
    ExpValue(l.exp) - |l.frac| + (|AllDigits(l)| - Leading(AllDigits(l)) - |Kept(l)|)
  }

  /** From here on the value of the exponent is not followed any more. */
  const SATURATED := 2147483640

  predicate Saturates(x: Exponent) {
    x.Exponent? && Nat(x.digits) >= SATURATED
  }

  /** The 32-bit arithmetic on the exponent does not wrap. */
  predicate FitsInt32(f: int, count: nat) {
    -0x8000_0000 <= f + count <= INT32_MAX
  }

  /** Nothing wraps in the conversion of the literal. */
  predicate NoWrap(l: Literal) {
    Kept(l) == [] || Saturates(l.exp) || FitsInt32(Scale(l), |Kept(l)|)
  }

  lemma ExponentAt(s: string, l: Literal, p: int, dotPos: int, i: nat)
    requires Scans(s, l, |SignChars(l.sign)|)
    requires Here(l, |SignChars(l.sign)|, p, |AllDigits(l)|, dotPos) && PastDot(l, |AllDigits(l)|, dotPos)
    ensures i < |ExpChars(l.exp)| ==> At(s, p + i) == At(ExpChars(l.exp), i)
    ensures p + |ExpChars(l.exp)| == |Render(l)| <= |s|
  {
    var front := SignChars(l.sign) + DigitChars(l.whole) + (if l.dot then "." else "") + DigitChars(l.frac);
    assert Render(l) == front + ExpChars(l.exp) && |front| == p;
    RenderedAt(s, l, p + i);
  }

  lemma ExpCharsAt(x: Exponent, i: nat)
    requires x.Exponent?
    ensures At(ExpChars(x), 0) == ExpChar(x)
    ensures x.sign != Unsigned ==> At(ExpChars(x), 1) == SignChars(x.sign)[0]
    ensures i < |x.digits| ==> At(ExpChars(x), 1 + |SignChars(x.sign)| + i) == DigitChar(x.digits[i])
    ensures |ExpChars(x)| == 1 + |SignChars(x.sign)| + |x.digits|
  {
  }

  lemma {:induction false} NatMonotone(ds: seq<Digit>, i: nat)
    requires i < |ds|
    ensures 10 * Nat(ds[..i]) <= Nat(ds)
    decreases |ds|
  {
    if i < |ds| - 1 {
      assert ds[..|ds| - 1][..i] == ds[..i];
      NatMonotone(ds[..|ds| - 1], i);
    }
  }

  lemma NatGrows(ds: seq<Digit>, i: nat)
    requires i < |ds|
    ensures Nat(ds[..i + 1]) == 10 * Nat(ds[..i]) + ds[i]
  {
    NatNext(ds, 0, i);
    assert ds[0..i + 1] == ds[..i + 1] && ds[0..i] == ds[..i];
  }

  /** The digits of an exponent, saturating before the 32-bit range is left. */
  method ScanExponentDigits(s: string, p0: int, ghost ds: seq<Digit>, ghost good: bool)
    returns (p: int, expn: int, overflow: bool)
    requires ToDigit(At(s, p0)) < 10 && 0 <= p0 <= |s|
    requires good ==> ds != [] && ToDigit(At(s, p0 + |ds|)) >= 10
    requires good ==> forall i: nat :: i < |ds| ==> At(s, p0 + i) == DigitChar(ds[i])
    ensures p > p0 && 0 <= expn < SATURATED && (overflow ==> expn > 0)
    ensures ToDigit(At(s, p)) >= 10 && forall i :: p0 <= i < p ==> ToDigit(At(s, i)) < 10
    ensures good ==> p == p0 + |ds| && (overflow <==> Nat(ds) >= SATURATED) && (!overflow ==> expn == Nat(ds))
  {
    expn := ToDigit(At(s, p0));
    p := p0 + 1;
    overflow := false;
    if good {
      assert At(s, p0 + 0) == DigitChar(ds[0]);
      ToDigitOfChar(ds[0]);
      NatGrows(ds, 0);
    }
    assert p0 < |s|;
    while true
      invariant p0 < p <= |s| && 0 <= expn < SATURATED && (overflow ==> expn > 0)
      invariant forall i :: p0 <= i < p ==> ToDigit(At(s, i)) < 10
      invariant good ==> p - p0 <= |ds| && (overflow <==> Nat(ds[..p - p0]) >= SATURATED)
      invariant good && !overflow ==> expn == Nat(ds[..p - p0])
      decreases |s| - p
    {
      if good && p - p0 < |ds| {
        assert At(s, p0 + (p - p0)) == DigitChar(ds[p - p0]);
        ToDigitOfChar(ds[p - p0]);
        NatGrows(ds, p - p0);
      }
      var c := ToDigit(At(s, p));
      if c >= 10 {
        break;
      }
      if !overflow {
        if expn > (INT32_MAX - 2 - 9) / 10 {
          overflow := true;
        } else {
          expn := expn * 10 + c;
        }
      }
      p := p + 1;
    }
    assert good ==> ds[..|ds|] == ds;
  }

  /** The scan has passed all digits. */
  ghost predicate AtExponent(s: string, l: Literal, start: nat, p: int, dotPos: int) {
    Scans(s, l, start) && Here(l, start, p, |AllDigits(l)|, dotPos) && PastDot(l, |AllDigits(l)|, dotPos)
  }

  function DigitOf(c: char): (d: Digit)
    requires ToDigit(c) < 10
    ensures DigitChar(d) == c
  {
    ToDigit(c)
  }

  /** The digits of `s` from a to b. */
  function DigitsIn(s: string, a: nat, b: nat): (r: seq<Digit>)
    requires a <= b && forall i :: a <= i < b ==> ToDigit(At(s, i)) < 10
    ensures |r| == b - a
    decreases b - a
  {
    if a == b then [] else [DigitOf(At(s, a))] + DigitsIn(s, a + 1, b)
  }

  lemma {:induction false} DigitsPiece(s: string, a: nat, b: nat)
    requires a <= b && forall i :: a <= i < b ==> ToDigit(At(s, i)) < 10
    ensures a < b ==> b <= |s|
    ensures b <= |s| ==> DigitChars(DigitsIn(s, a, b)) == s[a..b]
    decreases b - a
  {
    if a < b {
      DigitsPiece(s, a + 1, b);
      assert ToDigit(At(s, a)) < 10;
      var ds := DigitsIn(s, a + 1, b);
      assert DigitChars([DigitOf(s[a])] + ds) == [s[a]] + DigitChars(ds);
    }
  }

  /** The string goes on with the exponent x at p0, up to a character that does not continue it. */
  ghost predicate ExponentRead(s: string, start: nat, p0: nat, x: Exponent) {
    if x.NoExponent? then p0 == start || (At(s, p0) != 'e' && At(s, p0) != 'E')
    else x.digits != [] && StartsWith(s, p0, ExpChars(x)) && ToDigit(At(s, p0 + |ExpChars(x)|)) >= 10
  }

  /** The exponent that has been read, when there is one. */
  lemma ReadExponent(s: string, start: nat, p0: nat, p1: nat, p: nat) returns (x: Exponent)
    requires At(s, p0) == 'e' || At(s, p0) == 'E'
    requires p1 == p0 + 1 + if At(s, p0 + 1) == '+' || At(s, p0 + 1) == '-' then 1 else 0
    requires p1 < p && ToDigit(At(s, p)) >= 10 && forall i :: p1 <= i < p ==> ToDigit(At(s, i)) < 10
    ensures ExponentRead(s, start, p0, x) && p == p0 + |ExpChars(x)|
  {
    var c := At(s, p0 + 1);
    var sign := if c == '+' then Plus else if c == '-' then Minus else Unsigned;
    x := Exponent(At(s, p0) == 'E', sign, DigitsIn(s, p1, p));
    DigitsPiece(s, p1, p);
    assert s[p0 + 1..p1] == SignChars(sign);
    assert s[p0..p] == [s[p0]] + s[p0 + 1..p1] + s[p1..p];
  }

  /** What stands where the digits of the literal end. */
  lemma ExponentHere(s: string, l: Literal, start: nat, p0: nat, dotPos: int)
    requires AtExponent(s, l, start, p0, dotPos)
    ensures p0 > start
    ensures l.exp.NoExponent? ==> At(s, p0) != 'e' && At(s, p0) != 'E' && p0 == |Render(l)|
    ensures l.exp.Exponent? ==> var p1, ds := p0 + 1 + |SignChars(l.exp.sign)|, l.exp.digits;
      && (At(s, p0) == 'e' || At(s, p0) == 'E')
      && (At(s, p0 + 1) == '-' <==> l.exp.sign == Minus) && (At(s, p0 + 1) == '+' <==> l.exp.sign == Plus)
      && ds != [] && p1 + |ds| == |Render(l)| && ToDigit(At(s, p1 + |ds|)) >= 10 && ToDigit(At(s, p1)) < 10
      && forall i: nat :: i < |ds| ==> At(s, p1 + i) == DigitChar(ds[i])
  {
    hide Render;
    CharAtDigit(s, l, p0, |AllDigits(l)|, dotPos);
    ExponentAt(s, l, p0, dotPos, 0);
    ExponentAt(s, l, p0, dotPos, 1);
    if l.exp.Exponent? {
      ExpCharsAt(l.exp, 0);
      ToDigitOfChar(l.exp.digits[0]);
      DigitsOfExponent(s, l, p0, dotPos);
      assert At(s, p0 + 1 + |SignChars(l.exp.sign)| + 0) == DigitChar(l.exp.digits[0]);
    }
  }

  lemma NothingToRead(s: string, start: nat, p0: nat)
    requires p0 == start || (At(s, p0) != 'e' && At(s, p0) != 'E')
    ensures ExponentRead(s, start, p0, NoExponent) && |ExpChars(NoExponent)| == 0
  {
  }

  /** The exponent part, if there is one. */
  method ScanExponent(s: string, start: nat, p0: int, ghost l: Literal, ghost dotPos: int)
    returns (ok: bool, p: int, expn: int, overflow: bool, ghost x: Exponent)
    requires start <= p0
    ensures ok ==> ExponentRead(s, start, p0, x) && p == p0 + |ExpChars(x)|
    ensures p0 == start ==> ok && p == p0
    ensures p >= p0 && -SATURATED < expn < SATURATED
    ensures AtExponent(s, l, start, p0, dotPos) ==>
      && ok && p == |Render(l)| && (overflow <==> Saturates(l.exp)) && (!overflow ==> expn == ExpValue(l.exp))
      && (overflow ==> (expn < 0 <==> l.exp.sign == Minus))
  {
    hide Render, Nat, AtExponent, ExponentRead, ExpChars, ToDigit;
    ghost var good := AtExponent(s, l, start, p0, dotPos);
    ok, p, expn, overflow, x := true, p0, 0, false, NoExponent;
    if good {
      ExponentHere(s, l, start, p0, dotPos);
    }
    if (At(s, p) == 'e' || At(s, p) == 'E') && p > start {
      p := p + 1;
      var neg := At(s, p) == '-';
      if neg || At(s, p) == '+' {
        p := p + 1;
      }
      if ToDigit(At(s, p)) >= 10 {
        ok := false;
        return;
      }
      ghost var ds, p1 := if l.exp.Exponent? then l.exp.digits else [], p;
      DigitInside(s, p);
      p, expn, overflow := ScanExponentDigits(s, p, ds, good);
      x := ReadExponent(s, start, p0, p1, p);
      if neg {
        expn := -expn;
      }
    } else {
      NothingToRead(s, start, p0);
    }
  }

  lemma DigitInside(s: string, p: int)
    requires ToDigit(At(s, p)) < 10
    ensures 0 <= p < |s|
  {
  }

  lemma DigitsOfExponent(s: string, l: Literal, p: int, dotPos: int)
    requires Scans(s, l, |SignChars(l.sign)|) && l.exp.Exponent?
    requires Here(l, |SignChars(l.sign)|, p, |AllDigits(l)|, dotPos) && PastDot(l, |AllDigits(l)|, dotPos)
    ensures var ds, p1 := l.exp.digits, p + 1 + |SignChars(l.exp.sign)|;
      && p1 + |ds| == |Render(l)| && ToDigit(At(s, p1 + |ds|)) >= 10
      && forall i: nat :: i < |ds| ==> At(s, p1 + i) == DigitChar(ds[i])
  {
    hide Render;
    var ds, k := l.exp.digits, 1 + |SignChars(l.exp.sign)|;
    ExponentAt(s, l, p, dotPos, 0);
    ExpCharsAt(l.exp, 0);
    forall i: nat | i < |ds|
      ensures At(s, p + k + i) == DigitChar(ds[i])
    {
      ExponentAt(s, l, p, dotPos, k + i);
      ExpCharsAt(l.exp, i);
    }
  }

  // ---- the conversion ----

  lemma {:induction false} NatOfZeros(ds: seq<Digit>)
    requires forall i :: 0 <= i < |ds| ==> ds[i] == 0
    ensures Nat(ds) == 0
    decreases |ds|
  {
    if ds != [] {
      NatOfZeros(ds[..|ds| - 1]);
    }
  }

  lemma {:induction false} NatSkipsZeros(ds: seq<Digit>, n: nat)
    requires n <= |ds| && forall i :: 0 <= i < n ==> ds[i] == 0
    ensures Nat(ds) == Nat(ds[n..])
    decreases |ds|
  {
    if n == |ds| {
      NatOfZeros(ds);
    } else {
      var front := ds[..|ds| - 1];
      NatSkipsZeros(front, n);
      assert ds[n..][..|ds| - n - 1] == front[n..];
    }
  }

  /** From 10^309 on the result is infinity. */
  lemma LargeIsInfinite(k: nat, n: nat, q: int)
    requires HasDigits(k, n) && n > 0 && q + n >= 310
    ensures ReadsAs(INF_BITS, k, q)
  {
    hide Pow, Tens, Below, Units, NearestEven;
    var j := n - 1;
    LogBounds();
    CompareByRatioUp(2, 1024, 10, 309, 146, 485);
    PowMonotone(10, 309, q + j);
    UnitsAt(INF_BITS, 2047, 0);
    MantIsPower();
    PowAdd(2, 52, 2046);
    PowAdd(2, 1024, 1074);
    TensBelow(q + j);
    MulMonotone(Pow(2, 1024), Pow(10, q + j), Pow(2, 1074));
    CompareFiner(Units(INF_BITS), q, j, 1);
    MulMonotone(Pow(10, j), k, Tens(q));
    OverflowNearest(k * Tens(q), Below(q));
  }

  /** Below 10^-324 the result is zero. */
  lemma SmallIsZero(k: nat, n: nat, q: int)
    requires HasDigits(k, n) && q + n <= -324
    ensures ReadsAs(0, k, q)
  {
    hide Pow, Tens, Below, Units, NearestEven;
    LogBounds();
    CompareByRatioUp(2, 1075, 10, 324, 146, 485);
    PowMonotone(10, 324, -(q + n));
    PowNext(2, 1074);
    TensBelow(q + n);
    CompareFiner(1, q, n, 2);
    MulMonotone(k, Pow(10, n), Tens(q));
    MulAssoc(2, Pow(10, n), Tens(q));
    MulAssoc(2, k, Tens(q));
    UnderflowNearest(k * Tens(q), Below(q));
  }

  lemma ZeroReadsAsZero(q: int)
    ensures ReadsAs(0, 0, q)
  {
    hide Tens, Below, Units, NearestEven;
    UnderflowNearest(0, Below(q));
    assert 0 * Tens(q) == 0;
  }

  /** The double nearest to the collected digits times 10^f. */
  method Convert(tmp: Mpb, count: nat, f: int, ghost k: nat) returns (a: nat)
    requires tmp.Valid() && tmp.Normal() && tmp.tab.Length == DBIGNUM_LEN_MAX && tmp.Value() == k && tmp.len <= 4
    requires 0 < count <= MAX_DIGITS && HasDigits(k, count)
    requires -0x8000_0000 <= f <= INT32_MAX
    modifies tmp, tmp.tab
    ensures f + count <= INT32_MAX ==> ReadsAs(a, k, f)
    ensures f + count > INT32_MAX ==> a == 0
  {
    hide Pow, Val, ReadsAs, Rounded, NearestEven, Numerator, Denominator, Encode;
    var expn1 := Int32(f + count);
    if expn1 >= 309 + 1 {
      LargeIsInfinite(k, count, f);
      a := INF_BITS;
    } else if expn1 <= -324 {
      if f + count <= INT32_MAX {
        SmallIsZero(k, count, f);
      }
      a := 0;
    } else {
      DigitsFitLimbs(count);
      PowPositive(10, count - 1);
      ReadFits(k, tmp.len, f);
      var m, e, g, r := MulPowRoundToD(tmp, 5, 1, f, Nearest);
      RoundedNearest(m, e, Numerator(k, 1074, 5, 1, f), Denominator(1074, 5, 1, f), g, r);
      a := Encode(m, e);
      ReadFraction(a, k, f);
    }
  }

  /** The result of a conversion: a double by its sign and the rest of its pattern, or no number. */
  datatype Parsed = NotANumber | Double(negative: bool, bits: nat)

  predicate StartsWith(s: string, p: nat, word: string) {
    p + |word| <= |s| && s[p..p + |word|] == word
  }

  lemma FirstOfWord(s: string, p: nat, word: string)
    requires StartsWith(s, p, word) && word != ""
    ensures At(s, p) == word[0]
  {
    assert s[p..p + |word|][0] == s[p];
  }

  lemma InfinityAt(s: string, g: Sign)
    requires SignChars(g) + "Infinity" <= s
    ensures (At(s, 0) == '+' <==> g == Plus) && (At(s, 0) == '-' <==> g == Minus)
    ensures StartsWith(s, |SignChars(g)|, "Infinity")
  {
    var word := SignChars(g) + "Infinity";
    assert "Infinity"[0] == 'I';
    assert s[..|word|] == word;
    assert s[|SignChars(g)|..|word|] == word[|SignChars(g)|..] == "Infinity";
    assert s[0] == word[0];
  }

  lemma InfinityStarts(s: string, g: Sign)
    requires SignChars(g) <= s && StartsWith(s, |SignChars(g)|, "Infinity")
    ensures SignChars(g) + "Infinity" <= s
  {
    var n := |SignChars(g)|;
    assert s[..n + 8] == s[..n] + s[n..n + 8];
  }

  /** The sign at the start. */
  function SignAt(s: string): (g: Sign)
    ensures SignChars(g) <= s
  {
    if At(s, 0) == '+' then Plus else if At(s, 0) == '-' then Minus else Unsigned
  }

  lemma StartOf(s: string, l: Literal)
    requires Scans(s, l, |SignChars(l.sign)|)
    ensures At(s, 0) == '+' <==> l.sign == Plus
    ensures At(s, 0) == '-' <==> l.sign == Minus
    ensures At(s, |SignChars(l.sign)|) != 'I'
  {
    RenderedAt(s, l, 0);
    RenderedAt(s, l, |SignChars(l.sign)|);
    if l.whole != [] {
      assert At(s, |SignChars(l.sign)|) == DigitChar(l.whole[0]);
    } else {
      assert At(s, |SignChars(l.sign)|) == '.';
    }
  }

  /** The digits of a number, and how many of them come after the dot. */
  method ScanNumber(s: string, start: nat, tmp: Mpb, ghost l: Literal)
    returns (p: int, count: nat, offset: int, ghost k: nat, ghost dot: int)
    requires Collected(tmp, 0, 0, 0)
    modifies tmp, tmp.tab
    ensures p >= start
    ensures Passed(s, start, p, p - start - (if dot >= 0 then 1 else 0), dot) && Stopped(s, start, p, dot)
    ensures tmp.Valid() && tmp.Normal() && tmp.tab.Length == DBIGNUM_LEN_MAX && tmp.Value() == k && tmp.len <= 4
    ensures count <= MAX_DIGITS && HasDigits(k, count)
    ensures Scans(s, l, start) ==>
      && AtExponent(s, l, start, p, dot)
      && k == Nat(Kept(l)) && count == |Kept(l)|
      && (count > 0 ==> ExpValue(l.exp) - offset == Scale(l))
  {
    hide Render, Nat, HasDigits, Val, Pow, Collected, Stopped;
    var p0, sigPos, dotPos0 := SkipZeros(s, start, l);
    var pos, dotPos;
    p, pos, dotPos, count, k := ScanDigits(s, start, p0, sigPos, dotPos0, tmp, l);
    dot := dotPos;
    offset := if count == 0 then 0 else sigPos + count - (if dotPos < 0 then pos else dotPos);
  }

  /** Arithmetic that wraps gives the wrong double. */
  lemma WrapIsWrong(a: nat, k: nat, count: nat, f: int)
    requires 0 < count <= MAX_DIGITS && HasDigits(k, count) && -0xC000_0000 < f < 0xC000_0000
    requires !FitsInt32(f, count)
    requires a == if f < 0 then INF_BITS else 0
    ensures !ReadsAs(a, k, f)
  {
    hide ReadsAs, HasDigits;
    if f < 0 {
      SmallIsZero(k, count, f);
      OneReading(0, INF_BITS, k, f);
    } else {
      LargeIsInfinite(k, count, f);
      OneReading(0, INF_BITS, k, f);
    }
  }

  lemma OneReading(a: nat, b: nat, k: nat, q: int)
    requires a != b
    ensures !(ReadsAs(a, k, q) && ReadsAs(b, k, q))
  {
    hide Tens, Below, NearestEven;
    if ReadsAs(a, k, q) && ReadsAs(b, k, q) {
      NearestEvenUnique(a, b, k * Tens(q), Below(q));
      assert false;
    }
  }

  lemma Int32Of(f: int)
    requires -0xC000_0000 < f < 0xC000_0000
    ensures Int32(f) == if f < -0x8000_0000 then f + 0x1_0000_0000 else if f > INT32_MAX then f - 0x1_0000_0000 else f
  {
  }

  /** With the wrapped exponent the conversion ends beyond the other end of the range. */
  lemma WrappedReads(a: nat, k: nat, count: nat, f: int)
    requires 0 < count <= MAX_DIGITS && HasDigits(k, count) && -0xC000_0000 < f < 0xC000_0000
    requires !FitsInt32(f, count)
    requires Int32(f) + count <= INT32_MAX ==> ReadsAs(a, k, Int32(f))
    requires Int32(f) + count > INT32_MAX ==> a == 0
    ensures a == if f < 0 then INF_BITS else 0
  {
    hide ReadsAs, HasDigits, Int32;
    Int32Of(f);
    if f < 0 {
      LargeIsInfinite(k, count, Int32(f));
      if a != INF_BITS {
        OneReading(a, INF_BITS, k, Int32(f));
      }
    } else if Int32(f) + count <= INT32_MAX {
      SmallIsZero(k, count, Int32(f));
      if a != 0 {
        OneReading(a, 0, k, Int32(f));
      }
    }
  }

  /** The double of the digits and the exponent read. */
  method FromParts(tmp: Mpb, count: nat, offset: int, expn: int, overflow: bool, ghost k: nat) returns (a: nat)
    requires tmp.Valid() && tmp.Normal() && tmp.tab.Length == DBIGNUM_LEN_MAX && tmp.Value() == k && tmp.len <= 4
    requires count <= MAX_DIGITS && HasDigits(k, count)
    modifies tmp, tmp.tab
    ensures !overflow && count > 0 && -0xC000_0000 < expn - offset < 0xC000_0000 ==>
      (ReadsAs(a, k, expn - offset) <==> FitsInt32(expn - offset, count))
    ensures overflow && count > 0 ==> a == if expn < 0 then 0 else INF_BITS
    ensures count == 0 ==> k == 0 && a == 0
  {
    hide ReadsAs, HasDigits, Val, Int32;
    if count == 0 {
      a := 0;
      ZeroReads(k, 0);
    } else if overflow {
      a := if expn < 0 then 0 else INF_BITS;
    } else {
      ghost var f := expn - offset;
      Int32Range(f);
      a := Convert(tmp, count, Int32(expn - offset), k);
      if -0xC000_0000 < f < 0xC000_0000 {
        Int32Of(f);
        if !FitsInt32(f, count) {
          WrappedReads(a, k, count, f);
          WrapIsWrong(a, k, count, f);
        } else if f < -0x8000_0000 {
          SmallIsZero(k, count, f);
        }
      }
    }
  }

  lemma Int32Range(x: int)
    ensures -0x8000_0000 <= Int32(x) <= INT32_MAX
  {
  }

  /** The engine's strings are shorter than this. */
  const STRING_LIMIT := 0x4000_0000

  lemma ShortLiteral(s: string, l: Literal)
    requires Render(l) <= s && |s| < STRING_LIMIT
    ensures |l.whole| < STRING_LIMIT && |l.frac| < STRING_LIMIT && |AllDigits(l)| < STRING_LIMIT
  {
  }

  /** With at most 38 significant digits none is dropped. */
  lemma NothingDropped(l: Literal)
    requires |AllDigits(l)| - Leading(AllDigits(l)) <= 38
    ensures Nat(Kept(l)) == Nat(AllDigits(l)) && Scale(l) == ExpValue(l.exp) - |l.frac|
  {
    NatSkipsZeros(AllDigits(l), Leading(AllDigits(l)));
    assert Kept(l) == AllDigits(l)[Leading(AllDigits(l))..];
  }

  /** Beyond the saturated exponent the result is infinity or zero. */
  lemma SaturatedReads(l: Literal, count: nat, k: nat)
    requires Saturates(l.exp) && WellFormed(l) && |l.whole| < STRING_LIMIT && |AllDigits(l)| < STRING_LIMIT
    requires count == |Kept(l)| && 0 < count <= MAX_DIGITS && HasDigits(k, count)
    ensures ReadsAs(if l.exp.sign == Minus then 0 else INF_BITS, k, Scale(l))
  {
    hide ReadsAs, HasDigits, Nat, Kept;
    if l.exp.sign == Minus {
      SmallIsZero(k, count, Scale(l));
    } else {
      LargeIsInfinite(k, count, Scale(l));
    }
  }

  /** The literal whose digits end at p0. */
  ghost function LiteralRead(s: string, p0: nat, dot: int, x: Exponent): (m: Literal)
    requires var start := |SignChars(SignAt(s))|; Passed(s, start, p0, p0 - start - (if dot >= 0 then 1 else 0), dot)
  {
    var g := SignAt(s);
    var start := |SignChars(g)|;
    if dot < 0 then Literal(g, DigitsIn(s, start, p0), false, [], x)
    else Literal(g, DigitsIn(s, start, start + dot), true, DigitsIn(s, start + dot + 1, p0), x)
  }

  /** The digits of the literal are the characters passed. */
  lemma LiteralFront(s: string, p0: nat, dot: int, x: Exponent)
    requires var start := |SignChars(SignAt(s))|;
      Passed(s, start, p0, p0 - start - (if dot >= 0 then 1 else 0), dot) && p0 > start
    ensures var m := LiteralRead(s, p0, dot, x);
      && p0 <= |s|
      && SignChars(m.sign) + DigitChars(m.whole) + (if m.dot then "." else "") + DigitChars(m.frac) == s[..p0]
  {
    hide SignAt, SignChars, DigitChars, ToDigit;
    var start := |SignChars(SignAt(s))|;
    NulIsNoDigit();
    assert ToDigit(At(s, p0 - 1)) < 10 || At(s, p0 - 1) == '.';
    if dot < 0 {
      DigitsPiece(s, start, p0);
      assert s[..p0] == s[..start] + s[start..p0];
      assert DigitChars([]) == [];
    } else {
      DottedFront(s, start, start + dot, p0);
    }
  }

  lemma DottedFront(s: string, start: nat, d: nat, p0: nat)
    requires start <= d < p0 <= |s| && At(s, d) == '.'
    requires forall i :: start <= i < p0 && i != d ==> ToDigit(At(s, i)) < 10
    ensures s[..start] + DigitChars(DigitsIn(s, start, d)) + "." + DigitChars(DigitsIn(s, d + 1, p0)) == s[..p0]
  {
    hide DigitChars, ToDigit;
    DigitsPiece(s, start, d);
    DigitsPiece(s, d + 1, p0);
    assert s[..p0] == s[..start] + s[start..d] + [s[d]] + s[d + 1..p0];
  }

  lemma NulIsNoDigit()
    ensures ToDigit('\0') >= 10
  {
  }

  lemma LiteralParts(s: string, p0: nat, dot: int, x: Exponent)
    requires var start := |SignChars(SignAt(s))|;
      Passed(s, start, p0, p0 - start - (if dot >= 0 then 1 else 0), dot) && Stopped(s, start, p0, dot) && p0 > start
    ensures var m := LiteralRead(s, p0, dot, x);
      m.sign == SignAt(s) && m.exp == x && (m.dot <==> dot >= 0) && (!m.dot ==> m.frac == [])
      && |m.whole| + |m.frac| >= 1
  {
    hide At, ToDigit, SignAt, SignChars;
  }

  /** Where the scan succeeds it has read a literal. */
  lemma LiteralScans(s: string, p0: nat, dot: int, x: Exponent)
    requires var start := |SignChars(SignAt(s))|;
      Passed(s, start, p0, p0 - start - (if dot >= 0 then 1 else 0), dot) && Stopped(s, start, p0, dot)
      && ExponentRead(s, start, p0, x) && p0 > start
    ensures Scans(s, LiteralRead(s, p0, dot, x), |SignChars(SignAt(s))|)
  {
    hide LiteralRead, Passed, At, ToDigit, ExpChars, SignChars, DigitChars;
    var m := LiteralRead(s, p0, dot, x);
    LiteralFront(s, p0, dot, x);
    LiteralParts(s, p0, dot, x);
    var n := |ExpChars(x)|;
    NoExponentChars();
    assert Render(m) == s[..p0] + ExpChars(x);
    if x.Exponent? {
      assert s[..p0 + n] == s[..p0] + s[p0..p0 + n];
    }
  }

  lemma NoExponentChars()
    ensures ExpChars(NoExponent) == ""
  {
  }

  /** A literal at the start of s, if there is one; l itself if it is. */
  ghost function SomeLiteral(s: string, l: Literal): (m: Literal)
    ensures Scans(s, l, |SignChars(l.sign)|) ==> m == l
    ensures (exists h: Literal :: Scans(s, h, |SignChars(h.sign)|)) ==> Scans(s, m, |SignChars(m.sign)|)
  {
    if Scans(s, l, |SignChars(l.sign)|) then l
    else if exists h: Literal :: Scans(s, h, |SignChars(h.sign)|)
    then var h: Literal :| Scans(s, h, |SignChars(h.sign)|); h
    else l
  }

  /** Read the literal at the start of s, if there is one. */
  method ScanLiteral(s: string, start: nat, tmp: Mpb, ghost l: Literal)
    returns (ok: bool, p: int, count: nat, offset: int, expn: int, overflow: bool, ghost k: nat)
    requires Collected(tmp, 0, 0, 0) && start == |SignChars(SignAt(s))|
    modifies tmp, tmp.tab
    ensures tmp.Valid() && tmp.Normal() && tmp.tab.Length == DBIGNUM_LEN_MAX && tmp.Value() == k && tmp.len <= 4
    ensures count <= MAX_DIGITS && HasDigits(k, count)
    ensures ok <==> exists h: Literal :: Scans(s, h, |SignChars(h.sign)|)
    ensures Scans(s, l, |SignChars(l.sign)|) ==>
      && p == |Render(l)| && k == Nat(Kept(l)) && count == |Kept(l)|
      && (overflow <==> Saturates(l.exp))
      && (!overflow && count > 0 ==> expn - offset == Scale(l))
      && (overflow ==> (expn < 0 <==> l.exp.sign == Minus))
  {
    hide Render, Nat, HasDigits, Collected, Here, PastDot, Leading, Kept, Scans, Passed, Stopped, ExponentRead;
    ghost var m := SomeLiteral(s, l);
    if Scans(s, m, |SignChars(m.sign)|) {
      StartOf(s, m);
      NotEmpty(s, m);
    }
    var p0;
    ghost var dot;
    p0, count, offset, k, dot := ScanNumber(s, start, tmp, m);
    ghost var x;
    ok, p, expn, overflow, x := ScanExponent(s, start, p0, m, dot);
    ok := ok && p != start;
    if ok {
      LiteralScans(s, p0, dot, x);
    }
  }

  /** Convert a decimal string. The literal at its start gives the double nearest to the exact value of its first 38
      significant digits, the others replaced by zeros, with ties to even, if and only if the 32-bit arithmetic on its
      exponent does not wrap. It is no number if and only if it starts neither with a literal nor with "Infinity". */
  method JsAtod(s: string, ghost l: Literal) returns (r: Parsed, next: int)
    ensures Scans(s, l, |SignChars(l.sign)|) && |s| < STRING_LIMIT ==>
      && r.Double? && next == |Render(l)| && r.negative == (l.sign == Minus)
      && (ReadsAs(r.bits, Nat(Kept(l)), Scale(l)) <==> NoWrap(l))
    ensures forall g: Sign :: SignChars(g) + "Infinity" <= s ==>
      r == Double(g == Minus, INF_BITS) && next == |SignChars(g)| + 8
    ensures r.NotANumber? <==>
      && (forall h: Literal :: !Scans(s, h, |SignChars(h.sign)|))
      && (forall g: Sign :: !(SignChars(g) + "Infinity" <= s))
  {
    hide Render, Nat, ReadsAs, HasDigits, Collected, Leading, Kept, FitsInt32, Scans, StartsWith;
    ghost var g := SignAt(s);
    var start: nat := if At(s, 0) == '+' || At(s, 0) == '-' then 1 else 0;
    var neg := At(s, 0) == '-';
    ghost var good := Scans(s, l, |SignChars(l.sign)|) && |s| < STRING_LIMIT;
    if Scans(s, l, |SignChars(l.sign)|) {
      StartOf(s, l);
    }
    forall h: Sign | SignChars(h) + "Infinity" <= s
      ensures h == g && StartsWith(s, start, "Infinity")
    {
      InfinityAt(s, h);
    }
    if StartsWith(s, start, "Infinity") {
      FirstOfWord(s, start, "Infinity");
      InfinityStarts(s, g);
      return Double(neg, INF_BITS), start + 8;
    }
    var tmp := new Mpb(DBIGNUM_LEN_MAX);
    tmp.SetU64(0);
    Empty(tmp);
    var ok, p, count, offset, expn, overflow, k := ScanLiteral(s, start, tmp, l);
    if !ok {
      return NotANumber, p;
    }
    var a := FromParts(tmp, count, offset, expn, overflow, k);
    if good {
      if count == 0 {
        ZeroReadsAsZero(Scale(l));
      } else {
        ScaleBound(s, l);
        if overflow {
          SaturatedReads(l, count, k);
        }
      }
    }
    return Double(neg, a), p;
  }

  lemma ScaleBound(s: string, l: Literal)
    requires Scans(s, l, |SignChars(l.sign)|) && |s| < STRING_LIMIT
    ensures WellFormed(l) && |l.whole| < STRING_LIMIT && |AllDigits(l)| < STRING_LIMIT
    ensures !Saturates(l.exp) ==> -0xC000_0000 < Scale(l) < 0xC000_0000
  {
    hide Render, Nat, Leading;
    ShortLiteral(s, l);
  }

  /** 0.00000000001e-2147483639 */
  const WRAPPING := Literal(Unsigned, [0], true, [0, 0, 0, 0, 0, 0, 0, 0, 0, 0, 1],
                            Exponent(false, Minus, [2, 1, 4, 7, 4, 8, 3, 6, 3, 9]))

  /** Its exponent wraps, so the result is not the nearest double, which is 0. */
  lemma WrapExample()
    ensures WellFormed(WRAPPING) && !NoWrap(WRAPPING)
  {
    hide Nat, Leading, KeptFrom;
    ExampleExponent(WRAPPING.exp.digits);
    var all: seq<Digit> := [0, 0, 0, 0, 0, 0, 0, 0, 0, 0, 0, 1];
    assert AllDigits(WRAPPING) == all;
    LeadingIs(all, 11);
  }

  lemma LeadingIs(ds: seq<Digit>, n: nat)
    requires n < |ds| && ds[n] != 0 && forall i :: 0 <= i < n ==> ds[i] == 0
    ensures Leading(ds) == n
  {
    hide Leading;
    var r := Leading(ds);
    assert r < |ds| ==> ds[r] != 0;
  }

  lemma ExampleExponent(ds: seq<Digit>)
    requires ds == [2, 1, 4, 7, 4, 8, 3, 6, 3, 9]
    ensures Nat(ds) == 2147483639
  {
    hide Nat;
    NothingRead(ds);
    NatGrows(ds, 0);
    NatGrows(ds, 1);
    NatGrows(ds, 2);
    NatGrows(ds, 3);
    NatGrows(ds, 4);
    NatGrows(ds, 5);
    NatGrows(ds, 6);
    NatGrows(ds, 7);
    NatGrows(ds, 8);
    NatGrows(ds, 9);
    assert ds[..10] == ds;
  }

  lemma NothingRead(ds: seq<Digit>)
    ensures Nat(ds[..0]) == 0
  {
  }

  ghost method Empty(tmp: Mpb)
    requires tmp.Valid() && tmp.Normal() && tmp.Value() == 0 && tmp.tab.Length == DBIGNUM_LEN_MAX
    ensures Collected(tmp, 0, 0, 0)
  {
    PowZero(10);
  }

  lemma ZeroReads(k: nat, q: int)
    requires HasDigits(k, 0)
    ensures k == 0 && ReadsAs(0, 0, q)
  {
    PowZero(10);
    ZeroReadsAsZero(q);
  }

  lemma NotEmpty(s: string, l: Literal)
    requires Scans(s, l, |SignChars(l.sign)|)
    ensures |Render(l)| > |SignChars(l.sign)|
  {
  }
}
