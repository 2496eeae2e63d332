/** When a number is printed with an exponent, and what its text looks like. */
module Notation {
  import opened Powers
  import opened Limbs
  import opened Doubles
  import opened Decimals
  import opened Shortest
  import opened FreeFormat
  import opened Atod
  import opened Printing

  // ---- the two forms of the text ----

  /** One digit, the others behind a dot, and an exponent that always has its sign. */
  ghost predicate Exponential(s: string, sign: string, ds: seq<Digit>, x: int)
    requires ds != []
  {
    s == sign + DigitChars(ds[..1]) + (if |ds| > 1 then "." else "") + DigitChars(ds[1..])
         + "e" + (if x < 0 then "-" else "+") + DigitChars(Decimal(if x < 0 then -x else x))
  }

  /** The digits with a dot behind the first e10 of them; zeros fill the places up to the dot. */
  ghost predicate Positional(s: string, sign: string, ds: seq<Digit>, e10: int) {
    s == sign +
      if e10 <= 0 then "0." + DigitChars(Zeros(-e10)) + DigitChars(ds)
      else if e10 < |ds| then DigitChars(ds[..e10]) + "." + DigitChars(ds[e10..])
      else DigitChars(ds) + DigitChars(Zeros(e10 - |ds|))
  }

  /** The characters of a number without an exponent. */
  predicate Plain(s: string) {
    forall i :: 0 <= i < |s| ==> s[i] != 'e'
  }

  lemma PlainDigits(ds: seq<Digit>)
    ensures Plain(DigitChars(ds))
  {
  }

  lemma PlainConcat(a: string, b: string)
    requires Plain(a) && Plain(b)
    ensures Plain(a + b)
  {
  }

  lemma PositionalIsPlain(s: string, sign: string, ds: seq<Digit>, e10: int)
    requires Positional(s, sign, ds, e10) && Plain(sign)
    ensures 'e' !in s
  {
    hide DigitChars;
    PlainDigits(ds);
    if e10 <= 0 {
      PlainDigits(Zeros(-e10));
    } else if e10 < |ds| {
      PlainDigits(ds[..e10]);
      PlainDigits(ds[e10..]);
    } else {
      PlainDigits(Zeros(e10 - |ds|));
    }
    assert Plain(s);
  }

  lemma ExponentialHasE(s: string, sign: string, ds: seq<Digit>, x: int)
    requires ds != [] && Exponential(s, sign, ds, x)
    ensures 'e' in s
  {
    hide DigitChars, Decimal;
    var front := sign + DigitChars(ds[..1]) + (if |ds| > 1 then "." else "") + DigitChars(ds[1..]);
    assert s[|front|] == 'e';
  }

  lemma ExponentialLayout(neg: bool, ds: seq<Digit>, e10: int, mode: ExpMode)
    requires ds != [] && WithExponent(e10, mode)
    ensures Exponential(Render(Layout(neg, ds, e10, mode)), if neg then "-" else "", ds, e10 - 1)
  {
    hide DigitChars, Decimal, Render, Layout, Dotted;
    ExponentialText(neg, ds, e10, mode);
    DottedOne(ds);
    var a, w, d, r := if neg then "-" else "", DigitChars(ds[..1]), if |ds| > 1 then "." else "", DigitChars(ds[1..]);
    assert a + (w + d + r) == a + w + d + r;
  }

  lemma PositionalLayout(neg: bool, ds: seq<Digit>, e10: int, mode: ExpMode)
    requires ds != [] && !WithExponent(e10, mode)
    ensures Positional(Render(Layout(neg, ds, e10, mode)), if neg then "-" else "", ds, e10)
  {
    hide DigitChars, Render, Layout, Dotted, Zeros, WithExponent;
    var a := if neg then "-" else "";
    WholeDigits(ds);
    if e10 <= 0 {
      SmallText(neg, ds, e10, mode);
      var z, t := DigitChars(Zeros(-e10)), DigitChars(ds);
      assert a + "0." + z + t == a + ("0." + z + t);
    } else {
      LargeText(neg, ds, e10, mode);
      if e10 < |ds| {
        DottedInside(ds, e10);
        NoZeros();
        var w, r := DigitChars(ds[..e10]), DigitChars(ds[e10..]);
        assert a + (w + "." + r) + "" == a + (w + "." + r);
      } else {
        var z, t := DigitChars(Zeros(e10 - |ds|)), DigitChars(ds);
        assert e10 == |ds| ==> Zeros(0) == Zeros(e10 - |ds|);
        assert a + t + z == a + (t + z);
      }
    }
  }

  lemma DottedInside(ds: seq<Digit>, dot: nat)
    requires dot < |ds|
    ensures Dotted(ds, dot) == DigitChars(ds[..dot]) + "." + DigitChars(ds[dot..])
  {
  }

  /** The text of a layout. */
  lemma TextOfLayout(neg: bool, ds: seq<Digit>, e10: int, mode: ExpMode)
    requires ds != []
    ensures var s, sign := Render(Layout(neg, ds, e10, mode)), if neg then "-" else "";
      if mode == Always || (mode == Auto && (e10 <= -6 || e10 > 21))
      then 'e' in s && Exponential(s, sign, ds, e10 - 1)
      else 'e' !in s && Positional(s, sign, ds, e10)
  {
    hide Exponential, Positional, Render, Layout;
    var s, sign := Render(Layout(neg, ds, e10, mode)), if neg then "-" else "";
    if mode == Always || (mode == Auto && (e10 <= -6 || e10 > 21)) {
      ExponentialLayout(neg, ds, e10, mode);
      ExponentialHasE(s, sign, ds, e10 - 1);
    } else {
      PositionalLayout(neg, ds, e10, mode);
      PositionalIsPlain(s, sign, ds, e10);
    }
  }

  lemma WholeDigits(ds: seq<Digit>)
    ensures Dotted(ds, |ds|) == DigitChars(ds)
  {
    assert ds[..|ds|] == ds;
    NoDigits();
  }

  lemma NoZeros()
    ensures DigitChars(Zeros(0)) == ""
  {
    NoDigits();
  }

  // ---- the thresholds ----

  /** Powers of ten grow. */
  lemma DecPowers(i: int, j: int)
    requires i <= j
    ensures Dec(1, i) <= Dec(1, j)
  {
    hide Pow, Dec;
    DecMove(1, i, j - i);
    PowPositive(10, j - i);
    DecMonotone(1, 1 * Pow(10, j - i), i);
  }

  lemma DecStrict(k: nat, l: nat, q: int)
    requires k < l
    ensures Dec(k, q) < Dec(l, q)
  {
    hide Tens, Below;
    MulStrictlyMonotone(k, l, Tens(q));
    var b := Below(q) as real;
    var x, y := (k * Tens(q)) as real / b, (l * Tens(q)) as real / b;
    assert x * b == (k * Tens(q)) as real && y * b == (l * Tens(q)) as real;
    OrderScaled(y, x, b);
  }

  /** A decimal of p digits lies below 10^j if and only if its point stands no further right than the j-th place. */
  lemma PlaceOfPoint(k: nat, p: nat, e10: int, j: int)
    requires p >= 1 && Pow(10, p - 1) <= k < Pow(10, p)
    ensures Dec(k, e10 - p) < Dec(1, j) <==> e10 <= j
  {
    hide Pow, Dec;
    var q := e10 - p;
    DecMove(1, q, p);
    DecMove(1, q, p - 1);
    assert 1 * Pow(10, p) == Pow(10, p) && 1 * Pow(10, p - 1) == Pow(10, p - 1);
    if e10 <= j {
      DecStrict(k, Pow(10, p), q);
      DecPowers(e10, j);
    } else {
      DecMonotone(Pow(10, p - 1), k, q);
      DecPowers(j, e10 - 1);
    }
  }

  /** The double 10^21. */
  const TEN_TO_21: nat := 0x444B_1AE4_D6E2_EF50

  lemma TenTo21Is()
    ensures Pow(10, 21) == 1000000000000000000000
  {
    assert Pow(10, 4) == 10000 && Pow(10, 1) == 10;
    PowSum(10, 4, 4, 10000, 10000);
    PowSum(10, 8, 8, 100000000, 100000000);
    PowSum(10, 16, 4, 10000000000000000, 10000);
    PowSum(10, 20, 1, 100000000000000000000, 10);
  }

  lemma TenTo21()
    ensures TEN_TO_21 < INF_BITS && Dec(1, 21) == Units(TEN_TO_21) as real
  {
    hide Pow, Units, Dec;
    DecMove(1, 0, 21);
    TenTo21Is();
    IntegerDec(1000000000000000000000);
    UnitsAt(TEN_TO_21, 1092, 0xB1AE4D6E2EF50);
    TwoTo17();
    PowSum(2, 17, 1074, 131072, Pow(2, 1074));
    MulAssoc(0x1B1AE4D6E2EF50, 131072, Pow(2, 1074));
  }

  lemma TwoTo17()
    ensures Pow(2, 17) == 131072
  {
    assert Pow(2, 6) == 64 && Pow(2, 5) == 32;
    PowSum(2, 6, 6, 64, 64);
    PowSum(2, 12, 5, 4096, 32);
  }

  lemma IntegerDec(w: nat)
    ensures Dec(w, 0) == (w * Pow(2, 1074)) as real
  {
    hide Pow;
    TensBelow(0);
    PowZero(10);
    assert 1 * Pow(2, 1074) == Pow(2, 1074);
  }

  /** On which side of a power of ten the decimal lies, and on which side the double: a double below the power may be
      printed as the power itself, but not above it. */
  lemma SidesAgree(a: nat, k: nat, p: nat, q: int, j: int)
    requires p >= 1 && Closest(Units(a), p, k, q)
    ensures var d, t := Dec(k, q), Dec(1, j);
      && (Units(a) as real >= t ==> d >= t)
      && (Units(a) as real <= t ==> d <= t)
  {
    hide Pow, Dec, Units;
    PowPositive(10, p - 1);
    PowNext(10, p - 1);
    assert 1 < Pow(10, p);
    assert Off(Units(a) as real, Dec(k, q)) <= Off(Units(a) as real, Dec(1, j));
  }

  /** 10^21 is a double, so no other is printed as it. */
  lemma OnlyItself(a: nat, k: nat, q: int)
    requires ReadsAs(a, k, q) && Dec(k, q) == Dec(1, 21)
    ensures Units(a) as real == Dec(1, 21)
  {
    hide Dec, Units, ReadsAs;
    TenTo21();
    ReadsAsIff(a, k, q);
    assert CloserThan(a, TEN_TO_21, Dec(k, q));
  }

  /** The thresholds, for the decimal and for the double. */
  lemma Thresholds(a: nat, k: nat, p: nat, e10: int)
    requires 1 <= p && Pow(10, p - 1) <= k < Pow(10, p)
    requires ReadsAs(a, k, e10 - p) && Closest(Units(a), p, k, e10 - p)
    ensures var d, u := Dec(k, e10 - p), Units(a) as real;
      && (e10 <= -6 <==> d < Dec(1, -6))
      && (e10 > 21 <==> d >= Dec(1, 21))
      && (d < Dec(1, -6) <==> u < Dec(1, -6) && d != Dec(1, -6))
      && (d >= Dec(1, 21) <==> u >= Dec(1, 21))
  {
    hide Pow, Dec, Units, ReadsAs, Closest;
    PlaceOfPoint(k, p, e10, -6);
    PlaceOfPoint(k, p, e10, 21);
    SidesAgree(a, k, p, e10 - p, -6);
    SidesAgree(a, k, p, e10 - p, 21);
    if Dec(k, e10 - p) == Dec(1, 21) {
      OnlyItself(a, k, e10 - p);
    }
  }
}
