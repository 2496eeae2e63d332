/** Printing a double in free format, with the fast path for integers, and parsing it again. */
module RoundTrip {
  import opened Powers
  import opened Limbs
  import opened Bignum
  import opened Doubles
  import opened RadixPower
  import opened ToDouble
  import opened Decimals
  import opened Shortest
  import opened FreeFormat
  import opened Atod
  import opened Printing
  import opened Notation

  /** Two doubles that the same decimal reads as are the same, however the decimal is written. */
  lemma SameDecimal(a: nat, b: nat, k: nat, q: int, k1: nat, q1: int)
    requires ReadsAs(a, k, q) && ReadsAs(b, k1, q1) && Dec(k, q) == Dec(k1, q1)
    ensures a == b
  {
    hide Units, Tens, Below, NearestEven;
    ReadsAsIff(a, k, q);
    ReadsAsIff(a, k1, q1);
    NearestEvenUnique(a, b, k1 * Tens(q1), Below(q1));
  }

  lemma ExponentRange(a: nat, mant: nat, e10: int, p: nat)
    requires Finite(a) && 1 <= p <= 17 && Pow(10, p - 1) <= mant < Pow(10, p) && ReadsAs(a, mant, e10 - p)
    ensures -330 < e10 < 330
  {
    hide Pow, ReadsAs;
    if e10 >= 310 {
      LargeIsInfinite(mant, p, e10 - p);
      SameDecimal(a, INF_BITS, mant, e10 - p, mant, e10 - p);
    } else if e10 <= -324 {
      SmallIsZero(mant, p, e10 - p);
      SameDecimal(a, 0, mant, e10 - p, mant, e10 - p);
    }
  }

  // ---- what the free format promises ----

  /** The decimal k * 10^(e10 - p), of p digits, is what the free format prints for the double. */
  ghost predicate Printed(a: nat, k: nat, e10: int, p: nat)
    requires Finite(a)
  {
    && 1 <= p <= 17 && Pow(10, p - 1) <= k < Pow(10, p) && k % 10 != 0
    && ReadsAs(a, k, e10 - p)
    && Closest(Units(a), p, k, e10 - p)
    && (NoShorter(a, p) <==> MissesNone(a, 1, 16))
    && (Symmetric(a) ==> NoShorter(a, p))
  }

  // ---- integers ----

  /** The double is the integer w, below 2^53. */
  ghost predicate IsInteger(a: nat, w: nat) {
    0 < w < 2 * MANT && Units(a) == w * Pow(2, 1074)
  }

  lemma SplitInteger(a: nat, m: nat, e: int, w: nat)
    requires Finite(a) && Splits(a, m, e) && 1 <= e <= 53 && m == w * Pow(2, 53 - e)
    ensures IsInteger(a, w)
  {
    hide Pow, Units, Encode;
    PowZero(2);
    PowAdd(2, 53 - e, e + 1021);
    MulAssoc(w, Pow(2, 53 - e), Pow(2, e + 1021));
    PowPositive(2, 53 - e);
    MulMonotone(1, Pow(2, 53 - e), w);
  }

  /** An exact decimal reads as its double. */
  lemma ExactReads(a: nat, k: nat, q: int)
    requires Finite(a) && Dec(k, q) == Units(a) as real
    ensures ReadsAs(a, k, q)
  {
    hide Units, Dec, ReadsAs, GapAbove, GapBelow;
    GapsPositive(a);
    WithinReads(a, k, q);
  }

  /** Doubles below 2^53 are at most 1 apart. */
  lemma IntegerGaps(a: nat, w: nat)
    requires Finite(a) && IsInteger(a, w)
    ensures GapAbove(a) <= Pow(2, 1074) as real && GapBelow(a) <= Pow(2, 1074) as real
  {
    hide Pow, Units;
    var be := a / MANT;
    DivMod(a, MANT);
    UnitsAt(a, be, a % MANT);
    PowPositive(2, 1074);
    if be >= 1 {
      if be - 1 > 1074 {
        PowMonotone(2, 1075, be - 1);
        PowNext(2, 1074);
        LargeBinade(MANT + a % MANT, Pow(2, be - 1), w, Pow(2, 1074));
      }
      PowMonotone(2, be - 1, 1074);
    }
    UnitsNext(a);
    UnitsNext(a - 1);
    var be1 := (a - 1) / MANT;
    SmallerBinade(a);
    if be1 >= 1 {
      PowMonotone(2, be1 - 1, 1074);
    }
  }

  lemma LargeBinade(m: nat, x: nat, w: nat, t: nat)
    requires m >= MANT && x >= 2 * t && w < 2 * MANT && t > 0
    ensures m * x != w * t
  {
    MulMonotone(MANT, m, x);
    MulMonotone(2 * t, x, MANT);
    MulStrictlyMonotone(w, 2 * MANT, t);
  }

  lemma SmallerBinade(a: nat)
    requires a > 0
    ensures (a - 1) / MANT <= a / MANT
  {
  }

  /** No other number with fewer digits is within one half of an integer whose last digit is not zero, but for its
      trailing zeros. */
  lemma IntegerShortest(a: nat, w: nat, k: nat, z: nat, p: nat, k1: nat, q1: int)
    requires Finite(a) && IsInteger(a, w) && w == k * Pow(10, z) && k % 10 != 0
    requires p >= 1 && Pow(10, p - 1) <= k && ReadsAs(a, k1, q1)
    ensures k1 >= Pow(10, p - 1)
  {
    hide Pow, Units, ReadsAs, Dec, GapAbove, GapBelow;
    if p == 1 {
      PowZero(10);
      ZeroReadsElsewhere(a, k1, q1);
    } else if k1 < Pow(10, p - 1) {
      ReadsWithin(a, k1, q1);
      IntegerGaps(a, w);
      if q1 >= 0 {
        DecMove(k1, 0, q1);
        var v := k1 * Pow(10, q1);
        IntegerDec(v);
        HalfApart(v, w, Pow(2, 1074));
        SameInteger(k, z, k1, q1);
      } else {
        FinerBelow(w, k, z, p, k1, q1);
      }
      assert false;
    }
  }

  /** Integers at most one half apart are the same. */
  lemma HalfApart(v: nat, w: nat, t: nat)
    requires t == Pow(2, 1074)
    requires 2.0 * ((v * t) as real - (w * t) as real) <= t as real
    requires 2.0 * ((w * t) as real - (v * t) as real) <= t as real
    ensures v == w
  {
    hide Pow;
    PowPositive(2, 1074);
    if v > w {
      MulMonotone(w + 1, v, t);
    } else if w > v {
      MulMonotone(v + 1, w, t);
    }
  }

  lemma SameInteger(k: nat, z: nat, k1: nat, q1: nat)
    requires k * Pow(10, z) == k1 * Pow(10, q1) && k % 10 != 0
    ensures k1 >= k
  {
    hide Pow;
    PowPositive(10, z);
    PowPositive(10, q1);
    if q1 <= z {
      PowAdd(10, z - q1, q1);
      MulAssoc(k, Pow(10, z - q1), Pow(10, q1));
      CancelFactor(k * Pow(10, z - q1), k1, Pow(10, q1));
      PowPositive(10, z - q1);
      MulMonotone(1, Pow(10, z - q1), k);
    } else {
      PowAdd(10, q1 - z, z);
      MulAssoc(k1, Pow(10, q1 - z), Pow(10, z));
      CancelFactor(k, k1 * Pow(10, q1 - z), Pow(10, z));
      PowNext(10, q1 - z - 1);
      TenTimes(k1, Pow(10, q1 - z - 1));
    }
  }

  lemma TenTimes(x: nat, y: nat)
    ensures (x * (10 * y)) % 10 == 0
  {
    assert x * (10 * y) == (x * y) * 10;
    DivIs(x * (10 * y), 10, x * y, 0);
  }

  /** A decimal with fewer digits and a fraction is far below. */
  lemma FinerBelow(w: nat, k: nat, z: nat, p: nat, k1: nat, q1: int)
    requires w == k * Pow(10, z) && p >= 2 && Pow(10, p - 1) <= k && k1 < Pow(10, p - 1) && q1 < 0
    ensures 2.0 * ((w * Pow(2, 1074)) as real - Dec(k1, q1)) > Pow(2, 1074) as real
  {
    hide Pow, Dec;
    var t, h := Pow(2, 1074), Pow(10, p - 2);
    PowPositive(2, 1074);
    PowPositive(10, p - 2);
    PowPositive(10, z);
    PowNext(10, p - 2);
    FinerIsSmaller(k1, p - 1, q1, -q1);
    IntegerDec(h);
    MulMonotone(1, Pow(10, z), k);
    MulMonotone(h + 1, w, t);
  }

  /** An exact decimal is found by the search with as many digits or more. */
  lemma ExactHits(a: nat, m: nat, e: int, k: nat, q: int, r: nat)
    requires Finite(a) && Splits(a, m, e) && Dec(k, q) == Units(a) as real && k < Pow(10, r) && r >= 1
    ensures !MissesAt(a, r)
  {
    hide Pow, Units, Dec, GapAbove, GapBelow, Splits, GoodExponent, DigitsAt, Tried, FirstFit;
    ExponentIsGood(a, m, e);
    GapsPositive(a);
    var e0 := 1 + MulLog2Radix(e - 1);
    forall q1: int | FirstFit(Units(a), r, q1)
      ensures !InWindow(a, q1)
    {
      FitIsTried(Units(a), e0, r, q1);
      TriedNearest(Units(a), e0, r, q1 + r, DigitsAt(Units(a), q1), k, q);
    }
  }

  /** An integer without its trailing zeros. */
  lemma StripZeros(w: nat) returns (k: nat, z: nat)
    requires w > 0
    ensures w == k * Pow(10, z) && k % 10 != 0
    decreases w
  {
    PowZero(10);
    if w % 10 != 0 {
      k, z := w, 0;
    } else {
      var y;
      k, y := StripZeros(w / 10);
      PowNext(10, y);
      assert 10 * (k * Pow(10, y)) == k * (10 * Pow(10, y));
      z := y + 1;
    }
  }

  /** The digits of an integer are what the search of the free format would print. */
  lemma IntegerPrinted(a: nat, m: nat, e: int, w: nat, k: nat, z: nat, p: nat)
    requires Finite(a) && Splits(a, m, e) && IsInteger(a, w) && w == k * Pow(10, z) && k % 10 != 0
    requires 1 <= p <= 17 && Pow(10, p - 1) <= k < Pow(10, p)
    ensures Printed(a, k, p + z, p) && NoShorter(a, p)
  {
    hide Pow, Units, ReadsAs, Dec, Splits, Symmetric, MissesAt, Off;
    DecMove(k, 0, z);
    IntegerDec(w);
    ExactReads(a, k, z);
    forall k1: nat, q1: int | ReadsAs(a, k1, q1)
      ensures k1 >= Pow(10, p - 1)
    {
      IntegerShortest(a, w, k, z, p, k1, q1);
    }
    forall r: nat | 1 <= r <= 16
      ensures !MissesAt(a, r)
    {
      if r >= p {
        PowMonotone(10, p, r);
        ExactHits(a, m, e, k, z, r);
      } else if MissesAt(a, r) {
        MissesAreAsymmetric(a, r);
        PowMonotone(10, r, p - 1);
        assert false;
      }
    }
    OffExact(Units(a), k, z);
  }

  lemma OffExact(u: nat, k: nat, q: int)
    requires Dec(k, q) == u as real
    ensures forall k1: nat, q1: int :: Off(u as real, Dec(k, q)) <= Off(u as real, Dec(k1, q1))
  {
    hide Dec;
  }

  /** The width of an integer below 2^53. */
  lemma IntegerWidth(w: nat, k: nat, z: nat)
    requires 0 < w < 2 * MANT && w == k * Pow(10, z) && k % 10 != 0
    ensures var p := Width(k); 1 <= p && p + z <= 16 && Width(w) == p + z
    ensures Decimal(w) == ToDigits(k, Width(k)) + Zeros(z)
  {
    hide Pow, Width;
    var p := Width(k);
    PowPositive(10, z);
    PowAdd(10, p, z);
    PowAdd(10, p - 1, z);
    MulStrictlyMonotone(k, Pow(10, p), Pow(10, z));
    MulMonotone(Pow(10, p - 1), k, Pow(10, z));
    WidthIs(w, p + z);
    DigitsOfProduct(k, p, z);
    PowersOfTen(16);
    if p + z > 16 {
      PowMonotone(10, 16, p + z - 1);
    }
  }

  // ---- printing ----

  function SignText(neg: bool): string { if neg then "-" else "" }

  lemma SplitsRange(a: nat, m: nat, e: int)
    requires Splits(a, m, e)
    ensures MANT <= m < 2 * MANT
  {
  }

  /** The integer that the significand stands for, if it stands for one. */
  method IntegerPart(m: nat, e: int) returns (isInt: bool, w: nat)
    requires MANT <= m < 2 * MANT
    ensures isInt ==> 1 <= e <= 53 && m == w * Pow(2, 53 - e) && 0 < w < 2 * MANT
  {
    hide Pow;
    isInt, w := false, 0;
    if 1 <= e <= 53 {
      PowPositive(2, 53 - e);
      DivMod(m, Pow(2, 53 - e));
      if m % Pow(2, 53 - e) == 0 {
        isInt, w := true, m / Pow(2, 53 - e);
        MulMonotone(1, Pow(2, 53 - e), w);
      }
    }
  }

  /** The fast path: the digits of the integer itself. */
  method PrintInteger(neg: bool, mode: ExpMode, w: nat, m: nat, e: int, ghost a: nat)
    returns (s: string, ghost k: nat, ghost e10: int, ghost p: nat)
    requires Finite(a) && Splits(a, m, e) && 1 <= e <= 53 && m == w * Pow(2, 53 - e) && 0 < w < 2 * MANT
    requires mode != Always
    ensures Printed(a, k, e10, p) && -330 < e10 < 330
    ensures s == Render(Layout(neg, ToDigits(k, p), e10, mode))
  {
    hide Pow, Splits, Printed, ToDigits, Decimal, DigitChars, Width;
    ghost var z;
    k, z := StripZeros(w);
    p := Width(k);
    e10 := p + z;
    IntegerWidth(w, k, z);
    SplitInteger(a, m, e, w);
    StrippedDigits(w, k, z);
    IntegerPrinted(a, m, e, w, k, z, p);
    var ds := U64Toa(w);
    s := SignText(neg) + DigitChars(ds);
    IntegerText(neg, ToDigits(k, p), z, mode);
  }

  lemma StrippedDigits(w: nat, k: nat, z: nat)
    requires 0 < w && w == k * Pow(10, z) && k % 10 != 0
    ensures k > 0 && Pow(10, Width(k) - 1) <= k < Pow(10, Width(k))
  {
  }

  lemma IntegerText(neg: bool, digits: seq<Digit>, z: nat, mode: ExpMode)
    requires digits != [] && mode != Always && |digits| + z <= 16
    ensures Render(Layout(neg, digits, |digits| + z, mode)) == SignText(neg) + DigitChars(digits + Zeros(z))
  {
    hide DigitChars;
    NoDigits();
    var t := DigitChars(digits + Zeros(z));
    assert SignText(neg) + t + "" + "" + "" == SignText(neg) + t;
  }

  /** The printed text of a positive double: with an exponent when the mode asks for one, and in Auto exactly for the
      decimals below 10^-6 and from 10^21 on. */
  lemma TextOfPrinted(neg: bool, a: nat, k: nat, e10: int, p: nat, mode: ExpMode, s: string)
    requires Finite(a) && Printed(a, k, e10, p) && s == Render(Layout(neg, ToDigits(k, p), e10, mode))
    ensures mode == Always ==> 'e' in s
    ensures mode == Never ==> 'e' !in s
    ensures mode == Auto ==> var d, u := Dec(k, e10 - p), Units(a) as real;
      && ('e' in s <==> d < Dec(1, -6) || d >= Dec(1, 21))
      && ('e' in s <==> (u < Dec(1, -6) && d != Dec(1, -6)) || u >= Dec(1, 21))
  {
    hide Pow, Dec, Units, ReadsAs, Closest, NoShorter, MissesNone, Symmetric, Render, Layout, ToDigits, Exponential,
      Positional;
    TextOfLayout(neg, ToDigits(k, p), e10, mode);
    Thresholds(a, k, p, e10);
  }

  /** Zero has an exponent only when it is asked for. */
  lemma TextOfZero(neg: bool, mode: ExpMode, s: string)
    requires s == Render(Layout(neg, ToDigits(0, 1), 1, mode))
    ensures 'e' in s <==> mode == Always
  {
    hide Render, Layout, ToDigits, Exponential, Positional;
    TextOfLayout(neg, ToDigits(0, 1), 1, mode);
  }

  /** Print a double, given by its sign and the rest of its pattern, in free format. */
  method JsDtoa(neg: bool, a: nat, mode: ExpMode, minusZero: bool)
    returns (s: string, ghost k: nat, ghost e10: int, ghost p: nat)
    requires a <= INF_BITS
    ensures a == INF_BITS ==> s == SignText(neg) + "Infinity"
    ensures a == 0 ==> k == 0 && e10 == 1 && p == 1
    ensures 0 < a < INF_BITS ==> Printed(a, k, e10, p) && -330 < e10 < 330
    ensures a < INF_BITS ==>
      p >= 1 && s == Render(Layout(neg && (a > 0 || minusZero), ToDigits(k, p), e10, mode))
    ensures a < INF_BITS ==> var sign := SignText(neg && (a > 0 || minusZero));
      if 'e' in s then Exponential(s, sign, ToDigits(k, p), e10 - 1) else Positional(s, sign, ToDigits(k, p), e10)
    ensures a < INF_BITS && mode == Always ==> 'e' in s
    ensures a < INF_BITS && mode == Never ==> 'e' !in s
    ensures a == 0 && mode == Auto ==> 'e' !in s
    ensures 0 < a < INF_BITS && mode == Auto ==> var d, u := Dec(k, e10 - p), Units(a) as real;
      && ('e' in s <==> d < Dec(1, -6) || d >= Dec(1, 21))
      && ('e' in s <==> (u < Dec(1, -6) && d != Dec(1, -6)) || u >= Dec(1, 21))
  {
    hide Pow, ReadsAs, Closest, NoShorter, MissesNone, Symmetric, Splits, ToDigits, Layout, Render, Units, Dec,
      Exponential, Positional;
    k, e10, p := 0, 1, 1;
    var tmp := new Mpb(DBIGNUM_LEN_MAX);
    if a == INF_BITS {
      s := SignText(neg) + "Infinity";
    } else if a == 0 {
      tmp.SetU64(0);
      s := WriteLayout(tmp, neg && minusZero, 1, 1, mode);
    } else {
      var m, e := Split(a);
      SplitsRange(a, m, e);
      var isInt, w := IntegerPart(m, e);
      if isInt && mode != Always {
        s, k, e10, p := PrintInteger(neg, mode, w, m, e, a);
      } else {
        var mant, ex, digits := FreeFormatDigits(a);
        k, e10, p := mant, ex, digits;
        ExponentRange(a, mant, ex, digits);
        PowersOfTen(digits);
        tmp.SetU64(mant);
        s := WriteLayout(tmp, neg, digits, ex, mode);
      }
    }
    if a < INF_BITS {
      TextOfLayout(neg && (a > 0 || minusZero), ToDigits(k, p), e10, mode);
      if a == 0 {
        TextOfZero(neg && minusZero, mode, s);
      } else {
        TextOfPrinted(neg, a, k, e10, p, mode, s);
      }
    }
  }

  // ---- and parsing again ----

  /** Every double that is a number, printed in any layout and parsed, comes back; the sign of zero does if it is
      printed. */
  method PrintAndParse(neg: bool, a: nat, mode: ExpMode, minusZero: bool) returns (s: string, r: Parsed)
    requires a <= INF_BITS
    ensures r == Double(neg && (a > 0 || minusZero), a)
  {
    hide Pow, ReadsAs, Nat, Render, NoShorter, WellFormed, Closest, MissesNone, Symmetric, Layout, ToDigits, Dec, Kept,
      NoWrap, Scale, Units, Scans, Printed, Exponential, Positional, SignText, SignChars;
    ghost var k, e10, p;
    s, k, e10, p := JsDtoa(neg, a, mode, minusZero);
    var next;
    if a == INF_BITS {
      r, next := JsAtod(s, Layout(neg, [0], 1, mode));
      InfinityText(neg, s);
    } else {
      ghost var l := Layout(neg && (a > 0 || minusZero), ToDigits(k, p), e10, mode);
      ParsesLayout(neg && (a > 0 || minusZero), k, p, e10, mode, a);
      LayoutShort(neg && (a > 0 || minusZero), ToDigits(k, p), e10, mode);
      WholeString(s, l);
      r, next := JsAtod(s, l);
      SameDecimal(a, r.bits, k, e10 - p, Nat(Kept(l)), Scale(l));
    }
  }

  lemma InfinityText(neg: bool, s: string)
    requires s == SignText(neg) + "Infinity"
    ensures s == SignChars(if neg then Minus else Unsigned) + "Infinity"
  {
  }

  lemma WholeString(s: string, l: Literal)
    requires s == Render(l) && WellFormed(l)
    ensures Scans(s, l, |SignChars(l.sign)|)
  {
  }

  /** The layout of what was printed is read as the double. */
  lemma ParsesLayout(neg: bool, k: nat, p: nat, e10: int, mode: ExpMode, a: nat)
    requires a < INF_BITS && p >= 1
    requires a == 0 ==> k == 0 && e10 == 1 && p == 1
    requires a > 0 ==> Printed(a, k, e10, p) && -330 < e10 < 330
    ensures var l := Layout(neg, ToDigits(k, p), e10, mode);
      && WellFormed(l) && NoWrap(l) && l.sign == (if neg then Minus else Unsigned) && 1 <= p <= 17
      && ReadsAs(a, k, e10 - p) && Dec(Nat(Kept(l)), Scale(l)) == Dec(k, e10 - p)
  {
    hide Pow, ReadsAs, Nat, Closest, NoShorter, MissesNone, Symmetric, ToDigits, Dec, Kept, Scale, Units;
    var l := Layout(neg, ToDigits(k, p), e10, mode);
    if a == 0 {
      ZeroLayout(neg, mode);
      ZeroReadsAsZero(0);
      NothingIsZero(l);
      ZeroDec(0);
      ZeroDec(Scale(l));
    } else {
      LayoutMeaning(neg, k, p, e10, mode);
    }
  }

  lemma NothingIsZero(l: Literal)
    requires Kept(l) == []
    ensures Nat(Kept(l)) == 0
  {
  }

  lemma ZeroDec(q: int)
    ensures Dec(0, q) == 0.0
  {
    hide Tens, Below;
    assert 0 * Tens(q) == 0;
  }
}
