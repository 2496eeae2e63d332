/** Writing digits: limb by limb, with a dot, and the layouts of a printed number. */
module Printing {
  import opened Bytes
  import opened Powers
  import opened Limbs
  import opened Bignum
  import opened Decimals
  import opened Shortest
  import opened FreeFormat
  import opened Atod

  // ---- the digits of a number ----

  /** The last n digits of a number. */
  function ToDigits(v: nat, n: nat): (r: seq<Digit>)
    ensures |r| == n
    decreases n
  {
    if n == 0 then [] else ToDigits(v / 10, n - 1) + [v % 10]
  }

  lemma {:induction false} NatOfToDigits(v: nat, n: nat)
    requires v < Pow(10, n)
    ensures Nat(ToDigits(v, n)) == v
    decreases n
  {
    PowZero(10);
    if n > 0 {
      PowNext(10, n - 1);
      NatOfToDigits(v / 10, n - 1);
      var r := ToDigits(v, n);
      assert r[..|r| - 1] == ToDigits(v / 10, n - 1);
    }
  }

  lemma {:induction false} FirstNotZero(v: nat, n: nat)
    requires n >= 1 && Pow(10, n - 1) <= v < Pow(10, n)
    ensures ToDigits(v, n)[0] != 0
    decreases n
  {
    PowNext(10, n - 1);
    if n == 1 {
      PowZero(10);
      assert ToDigits(v / 10, 0) == [];
    } else {
      PowNext(10, n - 2);
      FirstNotZero(v / 10, n - 1);
    }
  }

  /** The digits of a quotient and those of the remainder. */
  lemma {:induction false} SplitDigits(v: nat, m: nat, k: nat)
    ensures Pow(10, k) > 0 && ToDigits(v, m + k) == ToDigits(v / Pow(10, k), m) + ToDigits(v % Pow(10, k), k)
    decreases k
  {
    PowPositive(10, k);
    if k == 0 {
      PowZero(10);
      assert ToDigits(v, 0) == [];
    } else {
      var p := Pow(10, k - 1);
      PowPositive(10, k - 1);
      PowNext(10, k - 1);
      SplitDigits(v / 10, m, k - 1);
      DivDiv(v, 10, p);
      LastDigitApart(v, p);
      assert ToDigits(v % Pow(10, k), k) == ToDigits((v / 10) % p, k - 1) + [v % 10];
    }
  }

  lemma LastDigitApart(v: nat, p: nat)
    requires p > 0
    ensures (v % (10 * p)) / 10 == (v / 10) % p && (v % (10 * p)) % 10 == v % 10
  {
    var q, r := (v / 10) / p, (v / 10) % p;
    DivMod(v, 10);
    DivMod(v / 10, p);
    assert v == q * (10 * p) + (10 * r + v % 10) by {
      assert v / 10 == q * p + r;
      assert 10 * (q * p) == q * (10 * p);
    }
    DivIs(v, 10 * p, q, 10 * r + v % 10);
    DivIs(10 * r + v % 10, 10, r, v % 10);
  }

  function Zeros(n: nat): (r: seq<Digit>) {
    seq(n, _ => 0)
  }

  /** Trailing zeros multiply. */
  lemma {:induction false} NatOfZerosBehind(ds: seq<Digit>, z: nat)
    ensures Nat(ds + Zeros(z)) == Nat(ds) * Pow(10, z)
    decreases z
  {
    hide Pow;
    PowZero(10);
    if z == 0 {
      assert ds + Zeros(0) == ds;
    } else {
      NatOfZerosBehind(ds, z - 1);
      PowNext(10, z - 1);
      var r := ds + Zeros(z);
      assert r[..|r| - 1] == ds + Zeros(z - 1);
      assert 10 * (Nat(ds) * Pow(10, z - 1)) == Nat(ds) * (10 * Pow(10, z - 1));
    }
  }

  lemma {:induction false} ZeroDigits(n: nat)
    ensures ToDigits(0, n) == Zeros(n)
    decreases n
  {
    if n > 0 {
      ZeroDigits(n - 1);
      assert Zeros(n) == Zeros(n - 1) + [0];
    }
  }

  /** The digits of k * 10^z are those of k and z zeros. */
  lemma DigitsOfProduct(k: nat, p: nat, z: nat)
    ensures ToDigits(k * Pow(10, z), p + z) == ToDigits(k, p) + Zeros(z)
  {
    hide Pow;
    SplitDigits(k * Pow(10, z), p, z);
    DivIs(k * Pow(10, z), Pow(10, z), k, 0);
    ZeroDigits(z);
  }

  /** How many digits a number has. */
  function Width(v: nat): (r: nat)
    ensures r >= 1 && v < Pow(10, r) && (v > 0 ==> Pow(10, r - 1) <= v)
  {
    if v < 10 then 1 else
    PowNext(10, Width(v / 10));
    PowNext(10, Width(v / 10) - 1);
    1 + Width(v / 10)
  }

  /** A number in decimal, without leading zeros. */
  function Decimal(v: nat): (r: seq<Digit>)
    ensures |r| == Width(v)
  {
    ToDigits(v, Width(v))
  }

  /** The width is the only number of digits that fits. */
  lemma WidthIs(v: nat, n: nat)
    requires n >= 1 && v < Pow(10, n) && (v > 0 ==> Pow(10, n - 1) <= v) && (v == 0 ==> n == 1)
    ensures Width(v) == n
  {
    hide Pow, Width;
    if v > 0 {
      if Width(v) < n {
        PowMonotone(10, Width(v), n - 1);
      } else if Width(v) > n {
        PowMonotone(10, n, Width(v) - 1);
      }
    } else {
      ZeroWidth();
    }
  }

  lemma ZeroWidth()
    ensures Width(0) == 1
  {
  }

  // ---- writing digits into the buffer ----

  /** The last `len` digits of a limb, from the last one on. */
  method U32ToaLen(v: u32, len: nat) returns (ds: seq<Digit>)
    ensures ds == ToDigits(v, len)
  {
    ds := [];
    var w: nat, i := v, 0;
    assert ToDigits(v, len) + [] == ToDigits(v, len);
    while i < len
      invariant 0 <= i <= len && |ds| == i
      invariant ToDigits(v, len) == ToDigits(w, len - i) + ds
    {
      ghost var was := ds;
      assert ToDigits(w, len - i) == ToDigits(w / 10, len - i - 1) + [w % 10];
      ds := [w % 10] + ds;
      w := w / 10;
      i := i + 1;
      assert ToDigits(w, len - i) + [ds[0]] + was == ToDigits(w, len - i) + ds;
    }
    assert ToDigits(w, 0) + ds == ds;
  }

  /** A 32-bit number without leading zeros. */
  method U32Toa(v: u32) returns (ds: seq<Digit>)
    ensures ds == Decimal(v)
  {
    hide Pow;
    var w: nat := v;
    ds := [w % 10];
    w := w / 10;
    assert ToDigits(v, 1) == ToDigits(w, 0) + ds;
    while w != 0
      invariant ds != [] && Width(v) == |ds| + if w == 0 then 0 else Width(w)
      invariant ToDigits(v, Width(v)) == ToDigits(w, Width(v) - |ds|) + ds
    {
      ghost var was, n := ds, Width(v) - |ds|;
      assert ToDigits(w, n) == ToDigits(w / 10, n - 1) + [w % 10];
      ds := [w % 10] + ds;
      w := w / 10;
      assert ToDigits(w, n - 1) + [ds[0]] + was == ToDigits(w, n - 1) + ds;
    }
    assert ToDigits(w, 0) + ds == ds;
  }

  /** Decimals of a quotient and a remainder by 10^k. */
  lemma JoinDecimals(v: nat, k: nat)
    requires v >= Pow(10, k)
    ensures Pow(10, k) > 0 && Decimal(v) == Decimal(v / Pow(10, k)) + ToDigits(v % Pow(10, k), k)
  {
    hide Pow, Width;
    PowPositive(10, k);
    var p := Pow(10, k);
    var q := v / p;
    DivMod(v, p);
    var n := Width(q);
    PowAdd(10, n, k);
    PowAdd(10, n - 1, k);
    QuotientPositive(v, p);
    MulMonotone(Pow(10, n - 1), q, p);
    MulMonotone(q + 1, Pow(10, n), p);
    WidthIs(v, n + k);
    SplitDigits(v, n, k);
  }

  lemma QuotientPositive(v: nat, p: nat)
    requires v >= p > 0
    ensures v / p >= 1
  {
    DivMod(v, p);
  }

  /** A 64-bit number without leading zeros, in pieces of nine digits. */
  method U64Toa(v: nat) returns (ds: seq<Digit>)
    requires v < 0x1_0000_0000_0000_0000
    ensures ds == Decimal(v)
  {
    hide Pow, Width, Decimal;
    if v < 0x1_0000_0000 {
      ds := U32Toa(v);
      return;
    }
    TenTo9();
    var n1, n := v / 1000000000, v % 1000000000;
    JoinDecimals(v, 9);
    if n1 >= 0x1_0000_0000 {
      var n2, n3 := n1 / 1000000000, n1 % 1000000000;
      JoinDecimals(n1, 9);
      TwoDigits(n2);
      ds := if n2 >= 10 then [n2 / 10, n2 % 10] else [n2];
      var mid := U32ToaLen(n3, 9);
      ds := ds + mid;
    } else {
      ds := U32Toa(n1);
    }
    var low := U32ToaLen(n, 9);
    ds := ds + low;
  }

  lemma TwoDigits(n: nat)
    requires n < 100
    ensures Decimal(n) == if n >= 10 then [n / 10, n % 10] else [n]
  {
    if n >= 10 {
      assert Width(n / 10) == 1 && Width(n) == 2;
      assert ToDigits(n / 10, 1) == [n / 10];
    } else {
      assert ToDigits(n / 10, 0) == [];
    }
  }

  /** Digits with a dot behind the first `dot` of them. */
  function Dotted(ds: seq<Digit>, dot: nat): (r: string)
    requires dot <= |ds|
  {
    DigitChars(ds[..dot]) + (if dot != |ds| then "." else "") + DigitChars(ds[dot..])
  }

  /** Write the last `n` digits of a big number, nine of each limb's remainder at a time, and move the last ones for
      the dot. */
  method OutputDigits(a: Mpb, n: nat, dot: nat) returns (s: string, ghost ds: seq<Digit>)
    requires a.Valid() && dot <= n
    modifies a, a.tab
    ensures ds == ToDigits(old(a.Value()), n) && s == Dotted(ds, dot)
  {
    hide Pow, Val, ToDigits, DigitChars, Dotted, DigitChar;
    ghost var v := a.Value();
    var buf: seq<Digit> := [];
    var left := n;
    NothingWritten(v, n);
    while left != 0
      invariant 0 <= left <= n && a.Valid() && |buf| == n - left
      invariant ToDigits(v, n) == ToDigits(a.Value(), left) + buf
      decreases left
    {
      var k := if left < 9 then left else 9;
      ghost var w := a.Value();
      var r := MpDiv1(a.tab, a.len, LIMB_BASE, 0);
      DivIs(w, LIMB_BASE, Val(a.tab[..a.len]), r);
      a.Renorm();
      var piece := U32ToaLen(r, k);
      NineDigits(w, left - k, k);
      PieceWritten(ToDigits(w / LIMB_BASE, left - k), piece, buf);
      left := left - k;
      buf := piece + buf;
    }
    ds := ToDigits(v, n);
    NothingWritten(a.Value(), 0);
    assert ToDigits(a.Value(), 0) + buf == buf;
    s := DigitChars(buf);
    DotMoved(buf, dot);
    if dot != n {
      s := s[..dot] + "." + s[dot..];
    }
  }

  lemma NothingWritten(v: nat, n: nat)
    ensures ToDigits(v, n) + [] == ToDigits(v, n) && (n == 0 ==> ToDigits(v, n) == [])
  {
  }

  lemma PieceWritten(a: seq<Digit>, b: seq<Digit>, c: seq<Digit>)
    ensures (a + b) + c == a + (b + c)
  {
  }

  lemma DotMoved(ds: seq<Digit>, dot: nat)
    requires dot <= |ds|
    ensures Dotted(ds, dot)
         == if dot != |ds| then DigitChars(ds)[..dot] + "." + DigitChars(ds)[dot..] else DigitChars(ds)
  {
    assert DigitChars(ds)[..dot] == DigitChars(ds[..dot]);
    assert DigitChars(ds)[dot..] == DigitChars(ds[dot..]);
    if dot == |ds| {
      assert DigitChars(ds[dot..]) == "" && ds[..dot] == ds;
    }
  }

  /** All nine digits of the remainder, or its last k when no more are wanted. */
  lemma NineDigits(w: nat, left: nat, k: nat)
    requires k == 9 || (k < 9 && left == 0)
    ensures ToDigits(w, left + k) == ToDigits(w / LIMB_BASE, left) + ToDigits(w % LIMB_BASE, k)
  {
    hide Pow, ToDigits;
    TenTo9();
    if k == 9 {
      SplitDigits(w, left, 9);
    } else {
      LastOf(w, k);
    }
  }

  /** The last k digits depend on the remainder by 10^9 only. */
  lemma LastOf(w: nat, k: nat)
    requires k <= 9
    ensures ToDigits(w, 0 + k) == ToDigits(w / LIMB_BASE, 0) + ToDigits(w % LIMB_BASE, k)
  {
    hide Pow, ToDigits;
    var p, q := Pow(10, k), Pow(10, 9 - k);
    TenTo9();
    PowPositive(10, k);
    PowPositive(10, 9 - k);
    PowAdd(10, k, 9 - k);
    SplitDigits(w, 0, k);
    SplitDigits(w % LIMB_BASE, 0, k);
    ModOfMod(w, p, q);
    NothingWritten(w / LIMB_BASE, 0);
    NothingWritten(w / p, 0);
    NothingWritten(w % LIMB_BASE / p, 0);
  }

  lemma ModOfMod(w: nat, p: nat, q: nat)
    requires p > 0 && q > 0
    ensures p * q > 0 && w % (p * q) % p == w % p
  {
    MulPositive(p, q);
    DivMod(w, p * q);
    DivMod(w % (p * q), p);
    var x, y := w / (p * q), w % (p * q) / p;
    assert w == (x * q + y) * p + w % (p * q) % p by {
      assert x * (p * q) == (x * q) * p;
    }
    DivIs(w, p, x * q + y, w % (p * q) % p);
  }

  // ---- the layouts ----

  datatype ExpMode = Always | Auto | Never

  /** Whether the number 0.d1 d2 ... * 10^e10 is written with an exponent. */
  predicate WithExponent(e10: int, mode: ExpMode) {
    mode == Always || (mode == Auto && (e10 <= -6 || e10 > 21))
  }

  /** How the digits of 0.d1 d2 ... * 10^e10 are written. */
  function Layout(neg: bool, digits: seq<Digit>, e10: int, mode: ExpMode): (l: Literal)
    requires digits != []
    ensures WellFormed(l)
  {
    var g, p, x := if neg then Minus else Unsigned, |digits|, e10 - 1;
    if WithExponent(e10, mode) then
      Literal(g, digits[..1], p > 1, digits[1..],
              Exponent(false, if x < 0 then Minus else Plus, Decimal(if x < 0 then -x else x)))
    else if e10 <= 0 then Literal(g, [0], true, Zeros(-e10) + digits, NoExponent)
    else if e10 < p then Literal(g, digits[..e10], true, digits[e10..], NoExponent)
    else Literal(g, digits + Zeros(e10 - p), false, [], NoExponent)
  }

  lemma LeadingOf(front: nat, digits: seq<Digit>, back: nat)
    requires digits != [] && digits[0] != 0
    ensures Leading(Zeros(front) + digits + Zeros(back)) == front
  {
    LeadingIs(Zeros(front) + digits + Zeros(back), front);
  }

  /** The digits a conversion keeps of a number that is written with zeros around its digits. */
  lemma KeptDigits(l: Literal, front: nat, digits: seq<Digit>, back: nat)
    requires digits != [] && digits[0] != 0 && |digits| <= 17
    requires AllDigits(l) == Zeros(front) + digits + Zeros(back)
    ensures var z := if |digits| + back <= MAX_DIGITS then back else MAX_DIGITS - |digits|;
      && Kept(l) == digits + Zeros(z)
      && Scale(l) == ExpValue(l.exp) - |l.frac| + back - z
  {
    LeadingOf(front, digits, back);
    var z := if |digits| + back <= MAX_DIGITS then back else MAX_DIGITS - |digits|;
    assert Kept(l) == digits + Zeros(z);
  }

  /** The number of zeros in front of the digits in a layout, and behind them. */
  function ZerosFront(e10: int, mode: ExpMode): (r: nat) {
    if !WithExponent(e10, mode) && e10 <= 0 then 1 - e10 else 0
  }

  function ZerosBack(p: nat, e10: int, mode: ExpMode): (r: nat) {
    if !WithExponent(e10, mode) && e10 > p then e10 - p else 0
  }

  lemma LayoutDigits(neg: bool, digits: seq<Digit>, e10: int, mode: ExpMode)
    requires digits != [] && -330 < e10 < 330
    ensures var l, back := Layout(neg, digits, e10, mode), ZerosBack(|digits|, e10, mode);
      && AllDigits(l) == Zeros(ZerosFront(e10, mode)) + digits + Zeros(back)
      && ExpValue(l.exp) - |l.frac| + back == e10 - |digits|
      && !Saturates(l.exp)
  {
    hide Nat, Width;
    var p := |digits|;
    if WithExponent(e10, mode) {
      var x := if e10 - 1 < 0 then 1 - e10 else e10 - 1;
      NatOfToDigits(x, Width(x));
      assert digits[..1] + digits[1..] == digits;
    } else if e10 <= 0 {
      assert [0] + Zeros(-e10) == Zeros(1 - e10);
      assert Zeros(1 - e10) + digits == [0] + (Zeros(-e10) + digits);
    } else if e10 < p {
      assert digits[..e10] + digits[e10..] == digits;
    }
    var l := Layout(neg, digits, e10, mode);
    assert Zeros(0) == [];
    assert [] + digits == digits && digits + [] == digits;
  }

  /** A layout is read as the number it was made for, and nothing wraps. */
  lemma LayoutMeaning(neg: bool, k: nat, p: nat, e10: int, mode: ExpMode)
    requires 1 <= p <= 17 && Pow(10, p - 1) <= k < Pow(10, p) && -330 < e10 < 330
    ensures var l := Layout(neg, ToDigits(k, p), e10, mode);
      NoWrap(l) && Dec(Nat(Kept(l)), Scale(l)) == Dec(k, e10 - p)
  {
    hide Nat, Pow, Dec, Layout, ToDigits, ZerosFront, ZerosBack, Kept, Saturates;
    var digits, back := ToDigits(k, p), ZerosBack(p, e10, mode);
    var l := Layout(neg, digits, e10, mode);
    FirstNotZero(k, p);
    NatOfToDigits(k, p);
    LayoutDigits(neg, digits, e10, mode);
    KeptDigits(l, ZerosFront(e10, mode), digits, back);
    var z := if p + back <= MAX_DIGITS then back else MAX_DIGITS - p;
    NatOfZerosBehind(digits, z);
    DecMove(k, e10 - p - z, z);
  }

  /** So is the layout of zero. */
  lemma ZeroLayout(neg: bool, mode: ExpMode)
    ensures var l := Layout(neg, ToDigits(0, 1), 1, mode); Kept(l) == []
  {
    var zero: seq<Digit> := [0];
    assert ToDigits(0, 0) == [];
    assert ToDigits(0, 1) == zero;
    var l := Layout(neg, zero, 1, mode);
    assert AllDigits(l) == zero;
    assert Leading(zero) == 1 by { assert Leading(zero[1..]) == 0; }
  }

  lemma LayoutShort(neg: bool, digits: seq<Digit>, e10: int, mode: ExpMode)
    requires 1 <= |digits| <= 17 && -330 < e10 < 330
    ensures |Render(Layout(neg, digits, e10, mode))| < STRING_LIMIT
  {
    hide Width;
    var x := if e10 - 1 < 0 then 1 - e10 else e10 - 1;
    WidthBelow(x);
  }

  lemma WidthBelow(x: nat)
    requires x < 1000
    ensures Width(x) <= 3
  {
    assert Width(x / 10 / 10) == 1;
  }

  // ---- writing a layout ----

  /** Write the digits of the number in `tmp` in the layout for the exponent. */
  method WriteLayout(tmp: Mpb, neg: bool, p: nat, e10: int, mode: ExpMode) returns (s: string)
    requires tmp.Valid() && p >= 1 && -330 < e10 < 330
    modifies tmp, tmp.tab
    ensures s == Render(Layout(neg, ToDigits(old(tmp.Value()), p), e10, mode))
  {
    hide ToDigits, Width, DigitChars, Val, DigitChar, Layout, Render, Dotted, Decimal;
    ghost var ds := ToDigits(tmp.Value(), p);
    s := if neg then "-" else "";
    if WithExponent(e10, mode) {
      var t, _ := OutputDigits(tmp, p, 1);
      var x := e10 - 1;
      var xs := U32Toa(if x < 0 then -x else x);
      ExponentialText(neg, ds, e10, mode);
      s := s + t + "e" + (if x < 0 then "-" else "+") + DigitChars(xs);
    } else if e10 <= 0 {
      var zeros := WriteZeros(-e10);
      var t, _ := OutputDigits(tmp, p, p);
      SmallText(neg, ds, e10, mode);
      s := s + "0." + zeros + t;
    } else {
      var t, _ := OutputDigits(tmp, p, if p < e10 then p else e10);
      var zeros := WriteZeros(if e10 > p then e10 - p else 0);
      LargeText(neg, ds, e10, mode);
      s := s + t + zeros;
    }
  }

  lemma ExponentialText(neg: bool, ds: seq<Digit>, e10: int, mode: ExpMode)
    requires ds != [] && WithExponent(e10, mode)
    ensures var x := e10 - 1;
      Render(Layout(neg, ds, e10, mode))
      == (if neg then "-" else "") + Dotted(ds, 1) + "e" + (if x < 0 then "-" else "+")
         + DigitChars(Decimal(if x < 0 then -x else x))
  {
    hide DigitChars, Decimal;
    DottedOne(ds);
    var x := e10 - 1;
    var a, b, c := if neg then "-" else "", Dotted(ds, 1), DigitChars(Decimal(if x < 0 then -x else x));
    var g := if x < 0 then "-" else "+";
    assert a + b + ("e" + g + c) == a + b + "e" + g + c;
    var d, w, r := if |ds| > 1 then "." else "", DigitChars(ds[..1]), DigitChars(ds[1..]);
    assert a + w + d + r == a + (w + d + r);
  }

  lemma SmallText(neg: bool, ds: seq<Digit>, e10: int, mode: ExpMode)
    requires ds != [] && !WithExponent(e10, mode) && e10 <= 0
    ensures Render(Layout(neg, ds, e10, mode))
         == (if neg then "-" else "") + "0." + DigitChars(Zeros(-e10)) + Dotted(ds, |ds|)
  {
    hide DigitChars;
    var a, z, t := if neg then "-" else "", DigitChars(Zeros(-e10)), Dotted(ds, |ds|);
    SmallLayout(ds, z, -e10);
    assert a + "0" + "." + (z + t) + "" == a + "0." + z + t;
  }

  lemma LargeText(neg: bool, ds: seq<Digit>, e10: int, mode: ExpMode)
    requires ds != [] && !WithExponent(e10, mode) && e10 > 0
    ensures var p := |ds|;
      Render(Layout(neg, ds, e10, mode))
      == (if neg then "-" else "") + Dotted(ds, if p < e10 then p else e10)
         + DigitChars(Zeros(if e10 > p then e10 - p else 0))
  {
    hide DigitChars;
    var a, z := if neg then "-" else "", DigitChars(Zeros(if e10 > |ds| then e10 - |ds| else 0));
    LargeLayout(ds, z, e10);
    if e10 < |ds| {
      var w, r := DigitChars(ds[..e10]), DigitChars(ds[e10..]);
      assert a + (w + "." + r) == a + w + "." + r + "";
      assert a + Dotted(ds, e10) + z == a + (Dotted(ds, e10) + z);
    } else {
      NoDigits();
      var t := Dotted(ds, |ds|);
      assert a + (t + z) + "" + "" + "" == a + t + z;
      assert e10 == |ds| ==> Dotted(ds, e10) == t;
    }
  }

  lemma NoDigits()
    ensures DigitChars([]) == ""
  {
  }

  method WriteZeros(n: nat) returns (s: string)
    ensures s == DigitChars(Zeros(n))
  {
    s := "";
    var i := 0;
    while i < n
      invariant 0 <= i <= n && s == DigitChars(Zeros(i))
    {
      s := s + "0";
      i := i + 1;
    }
  }

  lemma DottedOne(ds: seq<Digit>)
    requires ds != []
    ensures Dotted(ds, 1) == DigitChars(ds[..1]) + (if |ds| > 1 then "." else "") + DigitChars(ds[1..])
  {
  }

  lemma SmallLayout(ds: seq<Digit>, zeros: string, n: nat)
    requires zeros == DigitChars(Zeros(n))
    ensures DigitChars([0]) == "0" && zeros + Dotted(ds, |ds|) == DigitChars(Zeros(n) + ds)
  {
    assert Dotted(ds, |ds|) == DigitChars(ds) by {
      assert ds[..|ds|] == ds && DigitChars(ds[|ds|..]) == "";
    }
    assert DigitChars(Zeros(n) + ds) == DigitChars(Zeros(n)) + DigitChars(ds);
  }

  lemma LargeLayout(ds: seq<Digit>, zeros: string, e10: nat)
    requires ds != [] && e10 >= 1 && zeros == DigitChars(Zeros(if e10 > |ds| then e10 - |ds| else 0))
    ensures e10 < |ds| ==> Dotted(ds, e10) + zeros == DigitChars(ds[..e10]) + "." + DigitChars(ds[e10..])
    ensures e10 >= |ds| ==> Dotted(ds, |ds|) + zeros == DigitChars(ds + Zeros(e10 - |ds|))
  {
    if e10 < |ds| {
      assert zeros == "";
    } else {
      assert Dotted(ds, |ds|) == DigitChars(ds) by {
        assert ds[..|ds|] == ds && DigitChars(ds[|ds|..]) == "";
      }
      assert DigitChars(ds + Zeros(e10 - |ds|)) == DigitChars(ds) + DigitChars(Zeros(e10 - |ds|));
    }
  }
}
