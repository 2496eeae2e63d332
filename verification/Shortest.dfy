/** The shortest decimal that reads back as a given double. */
module Shortest {
  import opened Powers
  import opened Limbs
  import opened Rounding
  import opened Doubles
  import opened RadixPower
  import opened ToDouble
  import opened Decimals

  /** The decimal k * 10^q, in units of 2^-1074. */
  ghost function Dec(k: nat, q: int): (r: real) {
    (k * Tens(q)) as real / Below(q) as real
  }

  ghost function Off(x: real, y: real): (r: real) {
    if x >= y then x - y else y - x
  }

  lemma DivCancel(n: real, d: real, m: real, e: real)
    requires d > 0.0 && e > 0.0 && n * e == m * d
    ensures n / d == m / e
  {
    var x, y := n / d, m / e;
    assert x * d == n && y * e == m;
    assert (x - y) * (d * e) == n * e - m * d;
    assert d * e > 0.0;
  }

  lemma RealProduct(a: int, b: int)
    ensures (a * b) as real == a as real * b as real
  {
  }

  /** Moving the decimal point. */
  lemma DecMove(k: nat, q: int, j: nat)
    ensures Dec(k, q + j) == Dec(k * Pow(10, j), q)
  {
    hide Pow, Tens, Below;
    MovePoint(q, j);
    var t, b, t1, b1, p := Tens(q), Below(q), Tens(q + j), Below(q + j), Pow(10, j);
    assert (k * t1) * b == (k * p * t) * b1 by {
      Rearrange(k, t1, b);
      assert k * (p * t * b1) == (k * p * t) * b1;
    }
    RealProduct(k * t1, b);
    RealProduct(k * p * t, b1);
    DivCancel((k * t1) as real, b1 as real, (k * p * t) as real, b as real);
  }

  /** Scaled by the denominator, the distance of an integer from a decimal is an integer. */
  lemma OffScaled(v: nat, k: nat, q: int)
    ensures Off(v as real, Dec(k, q)) * Below(q) as real == Distance(v, k * Tens(q), Below(q)) as real
  {
    hide Tens, Below;
    var n, b := k * Tens(q), Below(q);
    ScaledOff(v, n, b, n as real / b as real);
  }

  lemma ScaledOff(v: nat, n: nat, b: nat, y: real)
    requires b > 0 && y == n as real / b as real
    ensures Off(v as real, y) * b as real == Distance(v, n, b) as real
  {
    RealProduct(v, b);
    assert y * b as real == n as real;
    assert (v as real - y) * b as real == (v * b) as real - n as real;
    SignScaled(v as real - y, b as real);
  }

  lemma SignScaled(x: real, b: real)
    requires b > 0.0
    ensures x >= 0.0 <==> x * b >= 0.0
  {
  }

  lemma OrderScaled(x: real, y: real, b: real)
    requires b > 0.0
    ensures x <= y <==> x * b <= y * b
    ensures x == y <==> x * b == y * b
  {
    assert (y - x) * b == y * b - x * b;
    SignScaled(y - x, b);
    SignScaled(x - y, b);
  }

  lemma ScaledInts(x: real, y: real, b: real, m: int, n: int)
    requires b > 0.0 && x * b == m as real && y * b == n as real
    ensures x <= y <==> m <= n
    ensures x == y <==> m == n
  {
    OrderScaled(x, y, b);
  }

  /** Comparing two integers by their distance from a decimal. */
  lemma OffOrder(v: nat, w: nat, k: nat, q: int)
    ensures var n, b := k * Tens(q), Below(q);
      && (Off(v as real, Dec(k, q)) <= Off(w as real, Dec(k, q)) <==> Distance(v, n, b) <= Distance(w, n, b))
      && (Off(v as real, Dec(k, q)) == Off(w as real, Dec(k, q)) <==> Distance(v, n, b) == Distance(w, n, b))
  {
    hide Tens, Below, Dec, Off, Distance;
    OffScaled(v, k, q);
    OffScaled(w, k, q);
    ScaledInts(Off(v as real, Dec(k, q)), Off(w as real, Dec(k, q)), Below(q) as real,
               Distance(v, k * Tens(q), Below(q)), Distance(w, k * Tens(q), Below(q)));
  }

  /** Comparing two decimals with the same exponent by their distance from an integer. */
  lemma OffOrderDigits(u: nat, k: nat, l: nat, q: int)
    ensures var t, b := Tens(q), Below(q);
      Off(u as real, Dec(k, q)) <= Off(u as real, Dec(l, q)) <==> Distance(u, k * t, b) <= Distance(u, l * t, b)
  {
    hide Tens, Below, Dec, Off, Distance;
    OffScaled(u, k, q);
    OffScaled(u, l, q);
    ScaledInts(Off(u as real, Dec(k, q)), Off(u as real, Dec(l, q)), Below(q) as real,
               Distance(u, k * Tens(q), Below(q)), Distance(u, l * Tens(q), Below(q)));
  }

  lemma DecOrder(u: nat, k: nat, q: int)
    ensures Dec(k, q) <= u as real <==> k * Tens(q) <= u * Below(q)
  {
    hide Tens, Below;
    var n, b := k * Tens(q), Below(q);
    var y := n as real / b as real;
    RealProduct(u, b);
    assert y * b as real == n as real;
    OrderScaled(y, u as real, b as real);
  }

  lemma DecMonotone(k: nat, l: nat, q: int)
    requires k <= l
    ensures Dec(k, q) <= Dec(l, q)
  {
    hide Tens, Below;
    MulMonotone(k, l, Tens(q));
    var b := Below(q) as real;
    var x, y := (k * Tens(q)) as real / b, (l * Tens(q)) as real / b;
    assert x * b == (k * Tens(q)) as real && y * b == (l * Tens(q)) as real;
    OrderScaled(x, y, b);
  }

  // ---- reading a decimal back ----

  /** Reading the decimal k * 10^q gives the double `a`. */
  ghost predicate ReadsAs(a: nat, k: nat, q: int) {
    NearestEven(a, k * Tens(q), Below(q))
  }

  ghost predicate CloserThan(a: nat, b: nat, y: real) {
    && Off(Units(a) as real, y) <= Off(Units(b) as real, y)
    && (Off(Units(a) as real, y) == Off(Units(b) as real, y) && b != a ==> a % 2 == 0)
  }

  lemma ReadsAsIff(a: nat, k: nat, q: int)
    ensures ReadsAs(a, k, q) <==> a <= INF_BITS && forall b: nat :: b <= INF_BITS ==> CloserThan(a, b, Dec(k, q))
  {
    hide Tens, Below, Dec, Off, Distance, Units;
    forall b: nat
      ensures CloserThan(a, b, Dec(k, q)) <==> NotWorse(a, b, k * Tens(q), Below(q))
    {
      OffOrder(Units(a), Units(b), k, q);
    }
  }

  /** Finite, positive doubles. */
  predicate Finite(a: nat) {
    0 < a < INF_BITS
  }

  ghost function GapAbove(a: nat): (r: real) {
    Units(a + 1) as real - Units(a) as real
  }

  ghost function GapBelow(a: nat): (r: real)
    requires a > 0
  {
    Units(a) as real - Units(a - 1) as real
  }

  /** Any other double is at least a gap away. */
  lemma OthersBeyondGap(a: nat, b: nat)
    requires a > 0 && b != a
    ensures b > a ==> Units(b) as real >= Units(a) as real + GapAbove(a)
    ensures b < a ==> Units(b) as real <= Units(a) as real - GapBelow(a)
  {
    hide Units;
    if b > a + 1 {
      UnitsIncreasing(a + 1, b);
    } else if b < a - 1 {
      UnitsIncreasing(b, a - 1);
    }
  }

  /** A number within half of both gaps reads as `a`; at exactly half only if `a` is even. */
  lemma WithinReads(a: nat, k: nat, q: int)
    requires Finite(a)
    requires var u, y := Units(a) as real, Dec(k, q);
      && 2.0 * (y - u) <= GapAbove(a) && 2.0 * (u - y) <= GapBelow(a)
      && (2.0 * (y - u) == GapAbove(a) || 2.0 * (u - y) == GapBelow(a) ==> a % 2 == 0)
    ensures ReadsAs(a, k, q)
  {
    hide Units, Dec, ReadsAs;
    UnitsStep(a);
    UnitsStep(a - 1);
    forall b: nat
      ensures CloserThan(a, b, Dec(k, q))
    {
      if b != a {
        OthersBeyondGap(a, b);
      }
    }
    ReadsAsIff(a, k, q);
  }

  /** A number that reads as `a` is within half of both gaps. */
  lemma ReadsWithin(a: nat, k: nat, q: int)
    requires Finite(a) && ReadsAs(a, k, q)
    ensures var u, y := Units(a) as real, Dec(k, q);
      && 2.0 * (y - u) <= GapAbove(a) && 2.0 * (u - y) <= GapBelow(a)
      && (2.0 * (y - u) == GapAbove(a) || 2.0 * (u - y) == GapBelow(a) ==> a % 2 == 0)
  {
    hide Units, Dec, ReadsAs;
    UnitsStep(a);
    UnitsStep(a - 1);
    ReadsAsIff(a, k, q);
    assert CloserThan(a, a + 1, Dec(k, q));
    assert CloserThan(a, a - 1, Dec(k, q));
  }

  /** The gaps on both sides are the same, except at powers of two above the smallest normal number. */
  predicate Symmetric(a: nat) {
    a % MANT != 0 || a / MANT <= 1
  }

  lemma UnitsNext(a: nat)
    ensures Units(a + 1) == Units(a) + if a / MANT <= 1 then 1 else Pow(2, a / MANT - 1)
  {
    hide Pow, Units;
    var be, frac := a / MANT, a % MANT;
    DivMod(a, MANT);
    PowZero(2);
    UnitsAt(a, be, frac);
    if frac + 1 < MANT {
      UnitsAt(a + 1, be, frac + 1);
    } else {
      UnitsAt(a + 1, be + 1, 0);
      if be >= 1 {
        PowNext(2, be - 1);
      }
    }
  }

  lemma SymmetricGaps(a: nat)
    requires a > 0 && Symmetric(a)
    ensures GapAbove(a) == GapBelow(a)
  {
    hide Pow, Units;
    UnitsNext(a);
    UnitsNext(a - 1);
    PowZero(2);
    if a % MANT != 0 {
      DivIs(a - 1, MANT, a / MANT, a % MANT - 1);
    }
  }

  /** With symmetric gaps, what is closer to `a` than a decimal that reads as `a` reads as `a` too. */
  lemma CloserReads(a: nat, k: nat, q: int, k1: nat, q1: int)
    requires Finite(a) && Symmetric(a) && ReadsAs(a, k1, q1)
    requires Off(Units(a) as real, Dec(k, q)) <= Off(Units(a) as real, Dec(k1, q1))
    ensures ReadsAs(a, k, q)
  {
    hide Units, Dec, ReadsAs, GapAbove, GapBelow;
    ReadsWithin(a, k1, q1);
    SymmetricGaps(a);
    WithinReads(a, k, q);
  }

  // ---- the digits the search tries ----

  /** The digits of the decimal with exponent q nearest to u units. */
  function DigitsAt(u: nat, q: int): (r: nat) {
    RoundDiv(u * Below(q), Tens(q), Nearest)
  }

  lemma DigitsNearest(u: nat, q: int, c: nat)
    ensures Off(u as real, Dec(DigitsAt(u, q), q)) <= Off(u as real, Dec(c, q))
  {
    hide Tens, Below, Dec, Off, RoundDiv;
    var r := DigitsAt(u, q);
    NearestMultiple(u * Below(q), Tens(q), c);
    OffOrderDigits(u, r, c, q);
    DistanceFlip(u, r, Tens(q), Below(q));
    DistanceFlip(u, c, Tens(q), Below(q));
  }

  lemma DistanceFlip(u: nat, k: nat, t: nat, b: nat)
    ensures Distance(u, k * t, b) == Distance(k, u * b, t)
  {
  }

  /** A decimal with fewer than 10^p digits at a finer exponent is below 10^(p - 1) at q, when it is not on the
      grid of q. */
  lemma FinerIsSmaller(k: nat, p: nat, q1: int, j: nat)
    requires p >= 1 && j >= 1 && k < Pow(10, p)
    ensures Dec(k, q1) <= Dec(Pow(10, p - 1), q1 + j)
  {
    hide Pow, Dec;
    DecMove(Pow(10, p - 1), q1, j);
    PowAdd(10, p - 1, j);
    PowMonotone(10, p, p - 1 + j);
    DecMonotone(k, Pow(10, p - 1) * Pow(10, j), q1);
  }

  /** No decimal of p digits is closer to u than the one of the grid q, when 10^(p - 1) there is not above u. */
  lemma GridIsNearest(u: nat, p: nat, q: int, k1: nat, q1: int)
    requires p >= 1 && k1 < Pow(10, p) && Dec(Pow(10, p - 1), q) <= u as real
    ensures Off(u as real, Dec(DigitsAt(u, q), q)) <= Off(u as real, Dec(k1, q1))
  {
    hide Pow, Dec, DigitsAt;
    if q1 >= q {
      DecMove(k1, q, q1 - q);
      DigitsNearest(u, q, k1 * Pow(10, q1 - q));
    } else {
      FinerIsSmaller(k1, p, q1, q - q1);
      DigitsNearest(u, q, Pow(10, p - 1));
    }
  }

  // ---- the digits with the estimated exponent ----

  /** What the estimate e0 of the exponent gives: 10^(e0 - 1) <= u < 2 * 10^e0. */
  predicate GoodExponent(u: nat, e0: int) {
    && Tens(e0 - 1) <= u * Below(e0 - 1)
    && u * Below(e0) < 2 * Tens(e0)
  }

  lemma EnoughDigits(u: nat, e0: int, p: nat)
    requires p >= 1 && GoodExponent(u, e0)
    ensures Dec(Pow(10, p - 1), e0 - p) <= u as real
    ensures Pow(10, p - 1) <= DigitsAt(u, e0 - p) <= 2 * Pow(10, p)
  {
    hide Pow, Tens, Below, Dec, RoundDiv;
    var q := e0 - p;
    CompareFiner(u, q, p - 1, 1);
    DecOrder(u, Pow(10, p - 1), q);
    RoundAbove(u * Below(q), Tens(q), Pow(10, p - 1), Nearest);
    CompareFiner(u, q, p, 2);
    RoundBelow(u * Below(q), Tens(q), 2 * Pow(10, p), Nearest);
  }

  /** More than half way to k rounds to k. */
  lemma RoundReaches(n: nat, d: nat, k: nat)
    requires d > 0 && 2 * n > (2 * k - 1) * d
    ensures RoundDiv(n, d, Nearest) >= k
  {
    hide RoundDiv;
    RoundDivNearest(n, d, Nearest);
    var r := RoundDiv(n, d, Nearest);
    if r < k {
      MulMonotone(r, k - 1, d);
      TwiceLess(k, d);
    }
  }

  lemma TwiceLess(k: int, d: int)
    ensures 2 * ((k - 1) * d) + d == (2 * k - 1) * d
  {
  }

  /** If the digits do not fit, one digit less does. */
  lemma OneDigitLess(u: nat, e0: int, p: nat)
    requires p >= 1 && GoodExponent(u, e0) && DigitsAt(u, e0 - p) >= Pow(10, p)
    ensures Pow(10, p - 1) <= DigitsAt(u, e0 - p + 1) < Pow(10, p)
  {
    hide Pow, Tens, Below, Dec, RoundDiv;
    var q, h := e0 - p, Pow(10, p - 1);
    PowNext(10, p - 1);
    PowPositive(10, p - 1);
    CompareFiner(u, q + 1, p - 1, 2);
    RoundBelow(u * Below(q + 1), Tens(q + 1), 2 * h, Nearest);
    AlmostReaches(u, q, DigitsAt(u, q), h);
    RoundReaches(u * Below(q + 1), Tens(q + 1), h);
  }

  lemma AlmostReaches(u: nat, q: int, r: nat, h: nat)
    requires r == DigitsAt(u, q) && h >= 1 && r >= 10 * h
    ensures 2 * (u * Below(q + 1)) > (2 * h - 1) * Tens(q + 1)
  {
    hide Pow, Tens, Below, RoundDiv;
    var t, b := Tens(q), Below(q);
    RoundDivNearest(u * b, t, Nearest);
    var k := 2 * h - 1;
    CompareFiner(2 * u, q, 1, k);
    PowTen();
    assert (2 * u) * b == 2 * (u * b) && (2 * u) * Below(q + 1) == 2 * (u * Below(q + 1));
    assert k * 10 * t < 2 * (u * b) by {
      MulMonotone(10 * h, r, t);
      assert k * 10 * t == 2 * ((10 * h) * t) - 10 * t;
    }
  }

  lemma PowTen()
    ensures Pow(10, 1) == 10
  {
    assert Pow(10, 0) == 1;
  }

  /** The exponent and the digits the search tries with p digits. */
  ghost predicate Tried(u: nat, e0: int, p: nat, e: int, k: nat) {
    && k == DigitsAt(u, e - p)
    && k < Pow(10, p)
    && (e == e0 || (e == e0 + 1 && DigitsAt(u, e0 - p) >= Pow(10, p)))
  }

  lemma TriedDigits(u: nat, e0: int, p: nat, e: int, k: nat)
    requires p >= 1 && GoodExponent(u, e0) && Tried(u, e0, p, e, k)
    ensures Pow(10, p - 1) <= k < Pow(10, p)
  {
    hide Pow, Dec, DigitsAt, GoodExponent;
    EnoughDigits(u, e0, p);
    if e != e0 {
      OneDigitLess(u, e0, p);
    }
  }

  /** The decimal tried is the nearest of all decimals of at most p digits. */
  lemma TriedNearest(u: nat, e0: int, p: nat, e: int, k: nat, k1: nat, q1: int)
    requires p >= 1 && GoodExponent(u, e0) && Tried(u, e0, p, e, k) && k1 < Pow(10, p)
    ensures Off(u as real, Dec(k, e - p)) <= Off(u as real, Dec(k1, q1))
  {
    hide Pow, Dec, DigitsAt, GoodExponent;
    var q0 := e0 - p;
    EnoughDigits(u, e0, p);
    GridIsNearest(u, p, q0, k1, q1);
    if e != e0 {
      if q1 > q0 {
        DecMove(k1, q0 + 1, q1 - q0 - 1);
        DigitsNearest(u, q0 + 1, k1 * Pow(10, q1 - q0 - 1));
      } else {
        PowerIsNearer(u, p, q0, k1, q1);
        DecMove(Pow(10, p - 1), q0, 1);
        PowSum10(p);
        DigitsNearest(u, q0 + 1, Pow(10, p - 1));
      }
    }
  }

  lemma PowSum10(p: nat)
    requires p >= 1
    ensures Pow(10, p - 1) * Pow(10, 1) == Pow(10, p)
  {
    PowAdd(10, p - 1, 1);
  }

  /** When the digits at q reach 10^p, then 10^p is as near as any decimal of p digits at q or finer. */
  lemma PowerIsNearer(u: nat, p: nat, q: int, k1: nat, q1: int)
    requires p >= 1 && DigitsAt(u, q) >= Pow(10, p) && k1 < Pow(10, p) && q1 <= q
    requires Off(u as real, Dec(DigitsAt(u, q), q)) <= Off(u as real, Dec(k1, q1))
    ensures Off(u as real, Dec(Pow(10, p), q)) <= Off(u as real, Dec(k1, q1))
  {
    hide Pow, Dec, Tens, Below, RoundDiv;
    var n := Pow(10, p);
    DecMove(n, q1, q - q1);
    PowPositive(10, q - q1);
    MulMonotone(1, Pow(10, q - q1), n);
    DecMonotone(k1, n * Pow(10, q - q1), q1);
    DecOrder(u, n, q);
    if Dec(n, q) > u as real {
      RoundBelow(u * Below(q), Tens(q), n, Nearest);
    }
  }

  /** Where a shorter decimal exists, the one tried reads back: the search does not stop too early. */
  lemma TriedReads(a: nat, e0: int, p: nat, e: int, k: nat, k1: nat, q1: int)
    requires Finite(a) && Symmetric(a) && p >= 1 && GoodExponent(Units(a), e0) && Tried(Units(a), e0, p, e, k)
    requires k1 < Pow(10, p) && ReadsAs(a, k1, q1)
    ensures ReadsAs(a, k, e - p)
  {
    hide Units, Pow, ReadsAs, Tried, GoodExponent, Dec, Off;
    TriedNearest(Units(a), e0, p, e, k, k1, q1);
    CloserReads(a, k, e - p, k1, q1);
  }

  // ---- seventeen digits are enough ----

  lemma DecLinear(k: nat, q: int)
    ensures Dec(k, q) == k as real * Dec(1, q) && Dec(1, q) > 0.0
  {
    hide Tens, Below;
    var t, b := Tens(q), Below(q) as real;
    RealProduct(k, t);
    assert 1 * t == t;
    var y := t as real / b;
    assert y * b == t as real;
    DivCancel((k * t) as real, b, k as real * y, 1.0);
    SignScaled(y, b);
  }

  /** The gaps around a double are at least its 2^53th part. */
  lemma GapsWide(a: nat)
    requires Finite(a)
    ensures Units(a) as real <= (2 * MANT) as real * GapAbove(a) && GapAbove(a) > 0.0
    ensures Units(a) as real <= (2 * MANT) as real * GapBelow(a) && GapBelow(a) > 0.0
  {
    hide Pow, Units;
    UnitsNext(a);
    UnitsNext(a - 1);
    var be, frac := a / MANT, a % MANT;
    DivMod(a, MANT);
    UnitsAt(a, be, frac);
    PowZero(2);
    UnitsStep(a);
    UnitsStep(a - 1);
    if be >= 1 {
      MulMonotone(MANT + frac, 2 * MANT, Pow(2, be - 1));
    }
    if frac != 0 {
      DivIs(a - 1, MANT, be, frac - 1);
    } else {
      DivIs(a - 1, MANT, be - 1, MANT - 1);
      if be >= 2 {
        PowNext(2, be - 2);
      }
    }
  }

  /** The nearest decimal is within half a step. */
  lemma HalfStep(u: nat, q: int)
    ensures 2.0 * Off(u as real, Dec(DigitsAt(u, q), q)) <= Dec(1, q)
  {
    hide Tens, Below, RoundDiv, Off, Dec;
    var r, t, b := DigitsAt(u, q), Tens(q), Below(q);
    RoundDivNearest(u * b, t, Nearest);
    OffScaled(u, r, q);
    DistanceFlip(u, r, t, b);
    DecOne(q);
    var off := Off(u as real, Dec(r, q));
    assert (2.0 * off) * b as real == 2.0 * (off * b as real);
    OrderScaled(2.0 * off, Dec(1, q), b as real);
  }

  lemma DecOne(q: int)
    ensures Dec(1, q) * Below(q) as real == Tens(q) as real
  {
    hide Tens, Below;
    assert 1 * Tens(q) == Tens(q);
  }

  lemma Tiny(u: real, y: real, off: real, step: real, gap: real)
    requires off >= 0.0 && 2.0 * off <= step && step > 0.0
    requires y >= 10000000000000000.0 * step && y <= u + off
    requires u <= (2 * MANT) as real * gap && gap > 0.0
    ensures 2.0 * off < gap
  {
  }

  /** Seventeen digits, at least 10^16, read back without a check. */
  lemma SeventeenDigitsRead(a: nat, q: int)
    requires Finite(a) && DigitsAt(Units(a), q) >= 10000000000000000
    ensures ReadsAs(a, DigitsAt(Units(a), q), q)
  {
    hide Units, Dec, ReadsAs, DigitsAt, GapAbove, GapBelow;
    var u := Units(a);
    var k := DigitsAt(u, q);
    HalfStep(u, q);
    DecLinear(k, q);
    GapsWide(a);
    var y, step := Dec(k, q), Dec(1, q);
    var off := Off(u as real, y);
    ManySteps(k, step, y);
    Tiny(u as real, y, off, step, GapAbove(a));
    Tiny(u as real, y, off, step, GapBelow(a));
    WithinReads(a, k, q);
  }

  lemma ManySteps(k: nat, step: real, y: real)
    requires y == k as real * step && step > 0.0 && k >= 10000000000000000
    ensures y >= 10000000000000000.0 * step
  {
    var d := (k - 10000000000000000) as real;
    assert k as real == d + 10000000000000000.0;
    assert k as real * step == d * step + 10000000000000000.0 * step;
    SignScaled(d, step);
  }

  /** A trailing zero can be dropped. */
  lemma DropZero(a: nat, k: nat, q: int)
    ensures ReadsAs(a, 10 * k, q) <==> ReadsAs(a, k, q + 1)
  {
    hide Dec, ReadsAs, Units, Off;
    PowTen();
    DecMove(k, q, 1);
    ReadsAsIff(a, 10 * k, q);
    ReadsAsIff(a, k, q + 1);
  }

  // ---- where the decimal tried does not read back and another of its length does ----

  /** The double is further than half the gap below it from the nearest decimal with exponent q, and the next decimal
      up is within half the gap above. */
  ghost predicate InWindow(a: nat, q: int)
    requires Finite(a)
  {
    var u, k := Units(a) as real, DigitsAt(Units(a), q);
    && GapBelow(a) < 2.0 * (u - Dec(k, q))
    && 2.0 * (Dec(k + 1, q) - u) <= GapAbove(a)
  }

  /** Some decimal of at most p digits reads as `a`. */
  ghost predicate Readable(a: nat, p: nat) {
    exists k: nat, q: int :: k < Pow(10, p) && ReadsAs(a, k, q)
  }

  /** In the window the next decimal up reads as `a`, and the nearest one does not. */
  lemma WindowMisses(a: nat, p: nat, q: int)
    requires Finite(a) && p >= 1 && DigitsAt(Units(a), q) < Pow(10, p) && InWindow(a, q)
    ensures !Symmetric(a) && Readable(a, p) && !ReadsAs(a, DigitsAt(Units(a), q), q)
  {
    hide Units, Pow, ReadsAs, Dec, DigitsAt, GapAbove, GapBelow, Symmetric;
    var u := Units(a);
    var k := DigitsAt(u, q);
    DigitsNearest(u, q, k + 1);
    DecLinear(k, q);
    DecLinear(k + 1, q);
    if Symmetric(a) {
      SymmetricGaps(a);
      assert false;
    }
    if ReadsAs(a, k, q) {
      ReadsWithin(a, k, q);
      assert false;
    }
    PowerOfTwoIsEven(a);
    GapsPositive(a);
    WithinReads(a, k + 1, q);
    if k + 1 == Pow(10, p) {
      PowSum10(p);
      DecMove(Pow(10, p - 1), q, 1);
      PowNext(10, p - 1);
      PowPositive(10, p - 1);
      PowTen();
      DropZero(a, Pow(10, p - 1), q);
    }
  }

  lemma PowerOfTwoIsEven(a: nat)
    requires !Symmetric(a)
    ensures a % 2 == 0
  {
    var be := a / MANT;
    DivMod(a, MANT);
    assert be * MANT == 2 * (be * 0x8_0000_0000_0000);
  }

  lemma GapsPositive(a: nat)
    requires a > 0
    ensures GapAbove(a) > 0.0 && GapBelow(a) > 0.0
  {
    hide Units;
    UnitsStep(a);
    UnitsStep(a - 1);
  }

  /** A decimal of at most p digits above the nearest one is not below the next one up. */
  lemma NextUp(p: nat, k: nat, q: int, k1: nat, q1: int)
    requires p >= 1 && Pow(10, p - 1) <= k && k1 < Pow(10, p) && Dec(k, q) < Dec(k1, q1)
    ensures Dec(k + 1, q) <= Dec(k1, q1)
  {
    hide Pow, Dec;
    if q1 >= q {
      DecMove(k1, q, q1 - q);
      var l := k1 * Pow(10, q1 - q);
      if l <= k {
        DecMonotone(l, k, q);
      } else {
        DecMonotone(k + 1, l, q);
      }
    } else {
      FinerIsSmaller(k1, p, q1, q - q1);
      DecMonotone(Pow(10, p - 1), k, q);
    }
  }

  /** The decimal tried misses exactly in the window: some decimal of at most p digits reads back and the one tried
      does not. */
  lemma TriedMisses(a: nat, e0: int, p: nat, e: int, k: nat)
    requires Finite(a) && p >= 1 && GoodExponent(Units(a), e0) && Tried(Units(a), e0, p, e, k)
    ensures Readable(a, p) && !ReadsAs(a, k, e - p) <==> InWindow(a, e - p)
  {
    hide Units, Pow, ReadsAs, Dec, DigitsAt, GapAbove, GapBelow, Symmetric, GoodExponent, InWindow;
    if InWindow(a, e - p) {
      WindowMisses(a, p, e - p);
    }
    if Readable(a, p) && !ReadsAs(a, k, e - p) {
      var k1: nat, q1: int :| k1 < Pow(10, p) && ReadsAs(a, k1, q1);
      if Symmetric(a) {
        TriedReads(a, e0, p, e, k, k1, q1);
        assert false;
      }
      MissIsWindow(a, e0, p, e, k, k1, q1);
    }
  }

  lemma MissIsWindow(a: nat, e0: int, p: nat, e: int, k: nat, k1: nat, q1: int)
    requires Finite(a) && p >= 1 && GoodExponent(Units(a), e0) && Tried(Units(a), e0, p, e, k)
    requires !Symmetric(a) && k1 < Pow(10, p) && ReadsAs(a, k1, q1) && !ReadsAs(a, k, e - p)
    ensures InWindow(a, e - p)
  {
    hide Units, Pow, ReadsAs, Dec, DigitsAt, GapAbove, GapBelow, Symmetric, GoodExponent;
    var u := Units(a);
    TriedNearest(u, e0, p, e, k, k1, q1);
    TriedDigits(u, e0, p, e, k);
    ReadsWithin(a, k1, q1);
    PowerOfTwoIsEven(a);
    GapsDouble(a);
    var q := e - p;
    if u as real <= Dec(k, q) || 2.0 * (u as real - Dec(k, q)) <= GapBelow(a) {
      WithinReads(a, k, q);
      assert false;
    }
    NextUp(p, k, q, k1, q1);
  }

  /** At a power of two the gap above is twice the gap below. */
  lemma GapsDouble(a: nat)
    requires a > 0 && !Symmetric(a)
    ensures GapAbove(a) == 2.0 * GapBelow(a) && GapBelow(a) > 0.0
  {
    hide Pow, Units;
    UnitsNext(a);
    UnitsNext(a - 1);
    GapsPositive(a);
    var be := a / MANT;
    DivMod(a, MANT);
    DivIs(a - 1, MANT, be - 1, MANT - 1);
    PowZero(2);
    PowNext(2, be - 2);
  }

  // ---- the exponent tried, without the estimate ----

  /** q is the exponent at which the digits of u first number at most p. */
  ghost predicate FirstFit(u: nat, p: nat, q: int) {
    DigitsAt(u, q) < Pow(10, p) <= DigitsAt(u, q - 1)
  }

  /** A coarser grid has no more digits. */
  lemma DigitsFall(u: nat, q: int, j: nat)
    ensures DigitsAt(u, q + j) <= DigitsAt(u, q)
  {
    hide DigitsAt;
    if j > 0 {
      DigitsFall(u, q, j - 1);
      DigitsFallOnce(u, q + j - 1);
    }
  }

  lemma DigitsFallOnce(u: nat, q: int)
    ensures DigitsAt(u, q + 1) <= DigitsAt(u, q)
  {
    hide Tens, Below, RoundDiv;
    var r, t, b := DigitsAt(u, q + 1), Tens(q), Below(q);
    if r >= 1 {
      RoundDivNearest(u * Below(q + 1), Tens(q + 1), Nearest);
      HalfStepDown(r, Tens(q + 1), u * Below(q + 1));
      FinerMore(u, q, r);
      RoundReaches(u * b, t, r);
    }
  }

  lemma HalfStepDown(r: nat, t: nat, n: nat)
    requires r >= 1 && 2 * (r * t - n) <= t
    ensures (2 * r - 1) * t <= 2 * n
  {
    assert (2 * r - 1) * t == 2 * (r * t) - t;
  }

  lemma FinerMore(u: nat, q: int, r: nat)
    requires r >= 1 && (2 * r - 1) * Tens(q + 1) <= 2 * (u * Below(q + 1))
    ensures 2 * (u * Below(q)) > (2 * r - 1) * Tens(q)
  {
    hide Tens, Below;
    var k: nat := 2 * r - 1;
    CompareFiner(2 * u, q, 1, k);
    PowTen();
    DoubleMul(u, Below(q));
    DoubleMul(u, Below(q + 1));
    MulStrictlyMonotone(k, k * 10, Tens(q));
  }

  lemma DoubleMul(u: int, b: int)
    ensures (2 * u) * b == 2 * (u * b)
  {
  }

  /** Whatever good estimate it starts from, the search tries the first exponent that fits. */
  lemma TriedIsFirstFit(u: nat, e0: int, p: nat, e: int, k: nat, q: int)
    requires p >= 1 && GoodExponent(u, e0) && Tried(u, e0, p, e, k)
    ensures FirstFit(u, p, q) <==> q == e - p
  {
    hide DigitsAt, GoodExponent, Pow;
    EnoughDigits(u, e0, p + 1);
    assert FirstFit(u, p, e - p);
    if q < e - p {
      DigitsFall(u, q, e - p - 1 - q);
    } else if q > e - p {
      DigitsFall(u, e - p, q - 1 - (e - p));
    }
  }

  /** The search misses a decimal of at most p digits: at the first exponent that fits, the double is in the
      window. */
  ghost predicate MissesAt(a: nat, p: nat)
    requires Finite(a)
  {
    exists q: int :: FirstFit(Units(a), p, q) && InWindow(a, q)
  }

  /** Half way between two neighbours on the grid, one digit more is exact. */
  lemma HalfWay(u: nat, k: nat, q: int)
    requires u as real - Dec(k, q) == Dec(k + 1, q) - u as real
    ensures Dec(10 * k + 5, q - 1) == u as real
  {
    hide Dec;
    PowTen();
    DecMove(k, q - 1, 1);
    DecMove(k + 1, q - 1, 1);
    DecLinear(10 * k, q - 1);
    DecLinear(10 * k + 10, q - 1);
    DecLinear(10 * k + 5, q - 1);
  }

  /** The decimal at the first exponent that fits is the one tried. */
  lemma FitIsTried(u: nat, e0: int, p: nat, q: int)
    requires p >= 1 && GoodExponent(u, e0) && FirstFit(u, p, q)
    ensures Tried(u, e0, p, q + p, DigitsAt(u, q))
  {
    hide DigitsAt, GoodExponent, Pow;
    if DigitsAt(u, e0 - p) < Pow(10, p) {
      TriedIsFirstFit(u, e0, p, e0, DigitsAt(u, e0 - p), q);
    } else {
      OneDigitLess(u, e0, p);
      TriedIsFirstFit(u, e0, p, e0 + 1, DigitsAt(u, e0 + 1 - p), q);
    }
  }

  /** When the decimal tried with t digits reads back and p < t of its digits are enough, the search with p digits
      misses nothing. */
  lemma SkippedHits(a: nat, e0: int, t: nat, et: int, kt: nat, p: nat, k1: nat, q1: int)
    requires Finite(a) && 1 <= p < t && GoodExponent(Units(a), e0) && Tried(Units(a), e0, t, et, kt)
    requires ReadsAs(a, k1, q1) && k1 < Pow(10, p) && Dec(k1, q1) == Dec(kt, et - t)
    ensures !MissesAt(a, p)
  {
    hide Units, Pow, ReadsAs, Dec, DigitsAt, GoodExponent, Tried, InWindow, FirstFit;
    forall q: int | FirstFit(Units(a), p, q)
      ensures !InWindow(a, q)
    {
      FitIsTried(Units(a), e0, p, q);
      SkippedFromWindow(a, e0, t, et, kt, p, DigitsAt(Units(a), q), q, k1, q1);
    }
  }

  lemma SkippedFromWindow(a: nat, e0: int, t: nat, et: int, kt: nat, p: nat, k: nat, q: int, k1: nat, q1: int)
    requires Finite(a) && 1 <= p < t && GoodExponent(Units(a), e0) && Tried(Units(a), e0, t, et, kt)
    requires Tried(Units(a), e0, p, q + p, k) && k == DigitsAt(Units(a), q)
    requires ReadsAs(a, k1, q1) && k1 < Pow(10, p) && Dec(k1, q1) == Dec(kt, et - t)
    ensures !InWindow(a, q)
  {
    hide Units, Pow, ReadsAs, Dec, DigitsAt, GapAbove, GapBelow, GoodExponent, Tried;
    var u := Units(a);
    if InWindow(a, q) {
      GapsPositive(a);
      TriedDigits(u, e0, p, q + p, k);
      PowMonotone(10, p, t);
      PowMonotone(10, p + 1, t);
      PowNext(10, p);
      TriedNearest(u, e0, p, q + p, k, k1, q1);
      TriedNearest(u, e0, t, et, kt, k, q);
      TriedNearest(u, e0, t, et, kt, 10 * k + 5, q - 1);
      ReadsWithin(a, k1, q1);
      NextUp(p, k, q, k1, q1);
      DigitsNearest(u, q, k + 1);
      DecLinear(k, q);
      DecLinear(k + 1, q);
      HalfWay(u, k, q);
      assert false;
    }
  }

  /** With p digits tried: the search misses exactly when some decimal of at most p digits reads back and the one
      tried does not. */
  lemma TriedMissesAt(a: nat, e0: int, p: nat, e: int, k: nat)
    requires Finite(a) && p >= 1 && GoodExponent(Units(a), e0) && Tried(Units(a), e0, p, e, k)
    ensures MissesAt(a, p) <==> Readable(a, p) && !ReadsAs(a, k, e - p)
  {
    hide Units, ReadsAs, DigitsAt, GoodExponent, Tried, InWindow, FirstFit, Readable;
    TriedMisses(a, e0, p, e, k);
    forall q: int
      ensures FirstFit(Units(a), p, q) <==> q == e - p
    {
      TriedIsFirstFit(Units(a), e0, p, e, k, q);
    }
  }

  /** Nothing is missed unless the double is a power of two. */
  lemma MissesAreAsymmetric(a: nat, p: nat)
    requires Finite(a) && p >= 1 && MissesAt(a, p)
    ensures !Symmetric(a) && Readable(a, p)
  {
    hide Units, Pow, ReadsAs, DigitsAt, InWindow, Readable, Symmetric;
    var q: int :| FirstFit(Units(a), p, q) && InWindow(a, q);
    WindowMisses(a, p, q);
  }

  /** No decimal of at most p digits is closer to u than k * 10^q. */
  ghost predicate Closest(u: nat, p: nat, k: nat, q: int) {
    forall k1: nat, q1: int :: k1 < Pow(10, p) ==> Off(u as real, Dec(k, q)) <= Off(u as real, Dec(k1, q1))
  }

  lemma TriedClosest(u: nat, e0: int, p: nat, e: int, k: nat, r: nat, k1: nat, q1: int)
    requires 1 <= r <= p && GoodExponent(u, e0) && Tried(u, e0, p, e, k) && Dec(k1, q1) == Dec(k, e - p)
    ensures Closest(u, r, k1, q1)
  {
    hide Pow, Dec, Off, GoodExponent, Tried;
    PowMonotone(10, r, p);
    forall k2: nat, q2: int | k2 < Pow(10, r)
      ensures Off(u as real, Dec(k1, q1)) <= Off(u as real, Dec(k2, q2))
    {
      TriedNearest(u, e0, p, e, k, k2, q2);
    }
  }
}
