/** The search for the shortest decimal of a double. */
module FreeFormat {
  import opened Bytes
  import opened Powers
  import opened Limbs
  import opened Division
  import opened Rounding
  import opened Bignum
  import opened RadixPower
  import opened Doubles
  import opened ToDouble
  import opened Decimals
  import opened Shortest

  // ---- fractions with the same ratio ----

  lemma RoundDivRatio(n: nat, d: nat, n1: nat, d1: nat, mode: Mode)
    requires d > 0 && d1 > 0 && n * d1 == n1 * d
    ensures RoundDiv(n, d, mode) == RoundDiv(n1, d1, mode)
  {
    hide RoundDiv;
    RoundDivScale(n, d, d1, mode);
    RoundDivScale(n1, d1, d, mode);
    assert d * d1 == d1 * d;
  }

  lemma DistanceScale(u: nat, n: nat, d: nat, c: nat)
    ensures Distance(u, n * c, d * c) == Distance(u, n, d) * c
  {
    assert u * (d * c) == (u * d) * c;
    if u * d >= n {
      MulMonotone(n, u * d, c);
      assert (u * d - n) * c == (u * d) * c - n * c;
    } else {
      MulMonotone(u * d, n, c);
      assert (n - u * d) * c == n * c - (u * d) * c;
    }
  }

  lemma NotWorseScale(a: nat, b: nat, n: nat, d: nat, c: nat)
    requires c > 0
    ensures NotWorse(a, b, n, d) <==> NotWorse(a, b, n * c, d * c)
  {
    hide Units, Distance;
    DistanceScale(Units(a), n, d, c);
    DistanceScale(Units(b), n, d, c);
    var x, y := Distance(Units(a), n, d), Distance(Units(b), n, d);
    if x < y {
      MulStrictlyMonotone(x, y, c);
    } else if y < x {
      MulStrictlyMonotone(y, x, c);
    }
  }

  lemma NearestRatio(a: nat, n: nat, d: nat, n1: nat, d1: nat)
    requires d > 0 && d1 > 0 && n * d1 == n1 * d
    ensures NearestEven(a, n, d) <==> NearestEven(a, n1, d1)
  {
    hide NotWorse;
    assert d * d1 == d1 * d;
    forall b: nat
      ensures NotWorse(a, b, n, d) <==> NotWorse(a, b, n1, d1)
    {
      NotWorseScale(a, b, n, d, d1);
      NotWorseScale(a, b, n1, d1, d);
    }
  }

  // ---- a double as a significand and an exponent ----

  /** The double is m * 2^(e - 53) with a significand of 53 bits. */
  ghost predicate Splits(a: nat, m: nat, e: int) {
    var g := GridOf(e);
    && MANT <= m < 2 * MANT
    && -1073 <= e <= 1024
    && Units(a) * Pow(2, g.s) == m * Pow(2, g.t)
    && Encode(m, e) == a
  }

  lemma LeadingZeros64(f: nat, n: nat)
    requires 0 < f < MANT && n == NBits(f)
    ensures 1 <= n <= 52 && MANT <= f * Pow(2, 53 - n) < 2 * MANT
  {
    hide Pow, NBits;
    NBitsMeaning(f);
    MantIsPower();
    if n > 52 {
      PowMonotone(2, 52, n - 1);
    }
    PowPositive(2, 53 - n);
    PowAdd(2, n - 1, 53 - n);
    PowAdd(2, n, 53 - n);
    MulMonotone(Pow(2, n - 1), f, Pow(2, 53 - n));
    MulStrictlyMonotone(f, Pow(2, n), Pow(2, 53 - n));
  }

  lemma SplitsNormal(a: nat, be: nat, frac: nat)
    requires Finite(a) && be == a / MANT && frac == a % MANT && be > 0
    ensures Splits(a, MANT + frac, be - 1022)
  {
    hide Pow, Units, Encode;
    UnitsAt(a, be, frac);
    PowZero(2);
    EncodeIsPattern(MANT + frac, be - 1022, MANT + frac, Grid(be - 1, 0));
  }

  lemma SplitsSubnormal(a: nat, l: nat)
    requires 0 < a < MANT && 1 <= l <= 52 && MANT <= a * Pow(2, l) < 2 * MANT
    ensures Splits(a, a * Pow(2, l), -1021 - l)
  {
    hide Pow, Units, Encode;
    UnitsAt(a, 0, a);
    PowZero(2);
    EncodeIsPattern(a * Pow(2, l), -1021 - l, a, Grid(0, l));
  }

  /** The significand and the exponent of a finite positive double. */
  method Split(a: nat) returns (m: nat, e: int)
    requires Finite(a)
    ensures Splits(a, m, e) && -1073 <= e <= 1024
  {
    hide Pow, Units, Encode, Splits, NBits;
    e := a / MANT;
    m := a % MANT;
    if e == 0 {
      LeadingZeros64(m, NBits(m));
      var l := (64 - NBits(m)) - 11;
      SplitsSubnormal(a, l);
      e := e - (l - 1);
      m := m * Pow(2, l);
    } else {
      SplitsNormal(a, e, m);
      m := m + MANT;
    }
    e := e - 1022;
  }

  /** A number is m * 2^k for only one significand of 53 bits. */
  lemma SignificandUnique(m: nat, k: nat, m1: nat, k1: nat)
    requires MANT <= m < 2 * MANT && MANT <= m1 < 2 * MANT && m * Pow(2, k) == m1 * Pow(2, k1)
    ensures m == m1 && k == k1
  {
    hide Pow;
    if k < k1 {
      SignificandsDiffer(m, k, m1, k1);
    } else if k1 < k {
      SignificandsDiffer(m1, k1, m, k);
    } else {
      PowPositive(2, k);
      if m < m1 {
        MulStrictlyMonotone(m, m1, Pow(2, k));
      } else if m1 < m {
        MulStrictlyMonotone(m1, m, Pow(2, k));
      }
    }
  }

  lemma SignificandsDiffer(m: nat, k: nat, m1: nat, k1: nat)
    requires m < 2 * MANT && MANT <= m1 && k < k1
    ensures m * Pow(2, k) < m1 * Pow(2, k1)
  {
    hide Pow;
    PowPositive(2, k);
    PowMonotone(2, k + 1, k1);
    PowNext(2, k);
    MulMonotone(Pow(2, k + 1), Pow(2, k1), m1);
    MulStrictlyMonotone(m, 2 * m1, Pow(2, k));
    assert m1 * (2 * Pow(2, k)) == (2 * m1) * Pow(2, k);
  }

  /** The significand and the exponent that a decimal rounds to are those of `a` exactly when it reads as `a`. */
  lemma SameSplit(a: nat, m: nat, e: int, m1: nat, e1: int, num: nat, den: nat, g: Grid, r: nat)
    requires Finite(a) && den > 0 && Splits(a, m, e) && Rounded(m1, e1, num, den, g, r, Nearest)
    ensures NearestEven(a, num, den) <==> m1 == m && e1 == e
  {
    hide Pow, Units, Encode, NearestEven, GridRound;
    RoundedNearest(m1, e1, num, den, g, r);
    if NearestEven(a, num, den) {
      NearestEvenUnique(a, Encode(m1, e1), num, den);
      EncodeIsPattern(m1, e1, r, g);
      assert a == g.t * MANT + r;
      UnitsOnGrid(g.t, r);
      RoundedValue(a, m, e, m1, e1, g, r);
    }
  }

  lemma RoundedValue(a: nat, m: nat, e: int, m1: nat, e1: int, g: Grid, r: nat)
    requires Splits(a, m, e) && Moved(m1, e1, r, g) && Units(a) == r * Pow(2, g.t)
    requires r * Pow(2, g.s) >= MANT && a > 0 && (g.t == 0 || g.s == 0)
    ensures m1 == m && e1 == e
  {
    hide Pow, Units, Encode;
    var g0 := GridOf(e);
    var c := if m1 == r * Pow(2, g.s) && m1 < 2 * MANT then 0 else 1;
    PowZero(2);
    PowOne();
    assert m1 * Pow(2, c) == r * Pow(2, g.s);
    PowAdd(2, c, g.t + g0.s);
    PowAdd(2, g.t, g0.s);
    PowAdd(2, g0.t, g.s);
    calc {
      m1 * Pow(2, c + (g.t + g0.s));
      { MulAssoc(m1, Pow(2, c), Pow(2, g.t + g0.s)); }
      (r * Pow(2, g.s)) * (Pow(2, g.t) * Pow(2, g0.s));
      { Regroup(r, Pow(2, g.s), Pow(2, g.t), Pow(2, g0.s)); }
      ((r * Pow(2, g.t)) * Pow(2, g0.s)) * Pow(2, g.s);
      { MulAssoc(m, Pow(2, g0.t), Pow(2, g.s)); }
      m * Pow(2, g0.t + g.s);
    }
    SignificandUnique(m1, c + (g.t + g0.s), m, g0.t + g.s);
  }

  lemma Regroup(a: int, b: int, c: int, d: int)
    ensures (a * b) * (c * d) == ((a * c) * d) * b
  {
    MulAssoc(a, b, c * d);
    MulAssoc(a, c, d);
    MulAssoc(a, c * d, b);
    assert b * (c * d) == (c * d) * b;
  }

  // ---- the fractions of the two conversions ----

  lemma TenIsFiveTwo(n: nat)
    ensures Pow(10, n) == Pow(5, n) * Pow(2, n)
  {
    PowOfProduct(5, 2, n);
  }

  lemma TensByFive(q: int)
    ensures Tens(q) == Pow(5, Max(q, 0)) * Pow(2, Max(q, 0) + 1074)
    ensures Below(q) == Pow(5, Max(-q, 0)) * Pow(2, Max(-q, 0))
  {
    hide Pow;
    TenIsFiveTwo(Max(q, 0));
    TenIsFiveTwo(Max(-q, 0));
    PowAdd(2, Max(q, 0), 1074);
    MulAssoc(Pow(5, Max(q, 0)), Pow(2, Max(q, 0)), Pow(2, 1074));
  }

  lemma PairUp(a: int, b: int, c: int, d: int)
    ensures (a * b) * (c * d) == (a * c) * (b * d)
  {
    MulAssoc(a, b, c * d);
    MulAssoc(b, c, d);
    MulAssoc(c, b, d);
    MulAssoc(a, c, b * d);
  }

  /** Two products of the same odd part and powers of two with the same sum of exponents. */
  lemma SameProducts(v: nat, p: nat, i: nat, n: nat, j: nat, i1: nat, j1: nat)
    requires i + j == i1 + j1
    ensures (v * p * Pow(2, i)) * (n * Pow(2, j)) == (v * (p * Pow(2, i1))) * (n * Pow(2, j1))
  {
    hide Pow;
    PowAdd(2, i, j);
    PowAdd(2, i1, j1);
    PairUp(v * p, Pow(2, i), n, Pow(2, j));
    MulAssoc(v, p, Pow(2, i1));
    PairUp(v * p, Pow(2, i1), n, Pow(2, j1));
  }

  /** Reading k * 10^q: the fraction of the conversion is the decimal. */
  lemma ReadFraction(a: nat, k: nat, q: int)
    ensures NearestEven(a, Numerator(k, 1074, 5, 1, q), Denominator(1074, 5, 1, q)) <==> ReadsAs(a, k, q)
  {
    hide Pow, Tens, Below, NearestEven;
    TensByFive(q);
    var x := 1074 + q;
    SameProducts(k, Pow(5, Max(q, 0)), Max(x, 0), Pow(5, Max(-q, 0)), Max(-q, 0), Max(q, 0) + 1074, Max(-x, 0));
    FractionAt(k, 1074, q);
    NearestRatio(a, Numerator(k, 1074, 5, 1, q), Denominator(1074, 5, 1, q), k * Tens(q), Below(q));
  }

  lemma FractionAt(k: nat, e: int, f: int)
    ensures Numerator(k, e, 5, 1, f) == k * Pow(5, Max(f, 0)) * Pow(2, Max(e + f, 0))
    ensures Denominator(e, 5, 1, f) == Pow(5, Max(-f, 0)) * Pow(2, Max(-(e + f), 0))
  {
    hide Pow;
  }

  /** Printing: the fraction of the conversion is the double in units of 10^q. */
  lemma PrintFraction(a: nat, m: nat, e: int, q: int, mode: Mode)
    requires Splits(a, m, e)
    ensures RoundDiv(Numerator(m, e - 53, 5, 1, -q), Denominator(e - 53, 5, 1, -q), mode)
         == RoundDiv(Units(a) * Below(q), Tens(q), mode)
  {
    hide Pow, Tens, Below, RoundDiv, Numerator, Denominator, Encode, Units;
    var g, u, f := GridOf(e), Units(a), -q;
    var num, den := Numerator(m, e - 53, 5, 1, f), Denominator(e - 53, 5, 1, f);
    PrintProducts(u, m, e, q, g);
    RoundDivRatio(num, den, u * Below(q), Tens(q), mode);
  }

  lemma PrintProducts(u: nat, m: nat, e: int, q: int, g: Grid)
    requires e == g.t - g.s - 1021 && u * Pow(2, g.s) == m * Pow(2, g.t)
    ensures Numerator(m, e - 53, 5, 1, -q) * Tens(q) == (u * Below(q)) * Denominator(e - 53, 5, 1, -q)
  {
    hide Pow, Tens, Below, Numerator, Denominator;
    var f := -q;
    var x := e - 53 + f;
    var p, n := Pow(5, Max(f, 0)), Pow(5, Max(-f, 0));
    TensByFive(q);
    FractionAt(m, e - 53, f);
    var num, den := Numerator(m, e - 53, 5, 1, f), Denominator(e - 53, 5, 1, f);
    var s := Pow(2, g.s);
    PowPositive(2, g.s);
    PowAdd(2, Max(-f, 0) + 1074, g.s);
    PowAdd(2, Max(f, 0), g.t);
    SameProducts(m, p, Max(x, 0), n, Max(-f, 0) + 1074 + g.s, Max(f, 0) + g.t, Max(-x, 0));
    var y, z := Pow(2, Max(f, 0)), Pow(2, g.t);
    assert (num * Tens(q)) * s == num * (n * Pow(2, Max(-f, 0) + 1074 + g.s)) by {
      MulAssoc(num, Tens(q), s);
      MulAssoc(n, Pow(2, Max(-f, 0) + 1074), s);
    }
    assert ((u * Below(q)) * den) * s == (m * (p * (y * z))) * den by {
      MoveFactor(u, p * y, den, s);
      MoveFactor(m, p * y, den, z);
      MulAssoc(p, y, z);
      MulAssoc(m, p * y, z);
    }
    CancelFactor(num * Tens(q), (u * Below(q)) * den, s);
  }

  lemma MoveFactor(u: int, b: int, d: int, s: int)
    ensures ((u * b) * d) * s == ((u * s) * b) * d
    ensures ((u * s) * b) * d == ((u * b) * s) * d
  {
    Rearrange(u, s, b);
    Rearrange(u * b, d, s);
    Rearrange(u * b, s, d);
  }

  lemma CancelFactor(x: int, y: int, s: int)
    requires s > 0 && x * s == y * s
    ensures x == y
  {
    CancelLeft(x, y, s);
    CancelLeft(y, x, s);
  }

  // ---- the size of the buffer ----

  /** The number of limbs of the buffer for big numbers. */
  const DBIGNUM_LEN_MAX := 52

  lemma FiveBelowTwo(f: nat, a: nat)
    requires 7 * f <= 3 * a
    ensures Pow(5, f) <= Pow(2, a)
  {
    assert Pow(5, 3) <= Pow(2, 7) by {
      assert Pow(5, 3) == 125 && Pow(2, 4) == 16 && Pow(2, 3) == 8;
      PowSum(2, 4, 3, 16, 8);
    }
    hide Pow;
    CompareByRatio(5, f, 2, a, 3, 7);
  }

  /** v * 5^f fits in n limbs. */
  lemma ProductFitsLimbs(v: nat, b: nat, f: nat, a: nat, n: nat)
    requires v < Pow(2, b) && 7 * f <= 3 * a && a + b <= 32 * n
    ensures v * Pow(5, f) < Pow(LIMB, n)
  {
    hide Pow;
    FiveBelowTwo(f, a);
    PowPositive(5, f);
    LimbPow(n);
    PowMonotone(2, a + b, 32 * n);
    PowAdd(2, b, a);
    MulStrictlyMonotone(v, Pow(2, b), Pow(5, f));
    PowPositive(2, b);
    MulMonotone(Pow(5, f), Pow(2, a), Pow(2, b));
  }

  /** Every product and quotient of the search fits, the carry limb of a shift included. */
  lemma PrintFits(m: nat, e: int, p: int, d: int)
    requires m < 2 * MANT && -1073 <= e <= 1024 && 1 <= p <= 17
    requires 0 <= d - 1 - MulLog2Radix(e - 1) <= 1
    ensures RoundFits(m, e - 53, 5, 1, p - d, DBIGNUM_LEN_MAX)
  {
    hide Pow;
    MantIsPower();
    var f := p - d;
    if f >= 0 {
      var x := e - 53 + f;
      assert f <= 340 && x <= 350;
      ProductFitsLimbs(m, 53, f, 800, 27);
      PowMonotone(LIMB, 27, DBIGNUM_LEN_MAX - if x > 0 then x / 32 + 1 else 0);
    } else {
      DividendFits10(-f, e - 53);
    }
  }

  /** The number of limbs of the buffer for the bound radix^digits. */
  const MANT_LEN_MAX := 18

  /** The same with a fixed number p of digits, up to 101: for every finite double and either exponent tried. */
  lemma FixedFits(m: nat, e: int, p: int, d: int)
    requires m < 2 * MANT && -1073 <= e <= 1024 && 1 <= p <= 101
    requires 0 <= d - 1 - MulLog2Radix(e - 1) <= 1
    ensures RoundFits(m, e - 53, 5, 1, p - d, DBIGNUM_LEN_MAX)
    ensures RoundFits(1, 0, 5, 1, p, MANT_LEN_MAX)
  {
    hide Pow;
    MantIsPower();
    PowZero(2);
    PowOne();
    var f := p - d;
    if f >= 0 {
      var x := e - 53 + f;
      var room := if x > 0 then x / 32 + 1 else 0;
      assert 53 + (7 * f + 2) / 3 <= 32 * (DBIGNUM_LEN_MAX - room);
      ProductFitsLimbs(m, 53, f, (7 * f + 2) / 3, DBIGNUM_LEN_MAX - room);
    } else {
      DividendFits10(-f, e - 53);
    }
    ProductFitsLimbs(1, 1, p, (7 * p + 2) / 3, MANT_LEN_MAX - (p / 32 + 1));
  }

  /** And with a fixed number n of digits after the dot. */
  lemma FractionFits(m: nat, e: int, n: nat)
    requires m < 2 * MANT && -1073 <= e <= 1024 && n <= 101
    ensures RoundFits(m, e - 53, 5, 1, n, DBIGNUM_LEN_MAX)
  {
    hide Pow;
    MantIsPower();
    var x := e - 53 + n;
    ProductFitsLimbs(m, 53, n, 236, 10);
    PowMonotone(LIMB, 10, DBIGNUM_LEN_MAX - if x > 0 then x / 32 + 1 else 0);
  }

  lemma DividendFits10(n: int, e: int)
    requires 1 <= n <= 309 && e <= 971
    ensures 2 + ExtraBits(n, 13, 1, true, e, 0) / 32 + 1 <= DBIGNUM_LEN_MAX
  {
  }

  lemma ReadFits(k: nat, len: nat, q: int)
    requires k < Pow(2, 128) && -361 <= q <= 309 && len <= 4
    ensures ParseFits(k, len, 5, 1, q, DBIGNUM_LEN_MAX)
  {
    hide Pow;
    if q >= 0 {
      ProductFitsLimbs(k, 128, q, 721, 50);
    } else {
      ReadDividendFits(-q, len);
    }
  }

  lemma ReadDividendFits(n: int, len: nat)
    requires 1 <= n <= 361 && len <= 4
    ensures len + ExtraBits(n, 13, 1, false, 55, 0) / 32 + 3 <= DBIGNUM_LEN_MAX
  {
  }

  // ---- the search ----

  lemma LimbsOf64(k: nat)
    requires k < DLIMB
    ensures k < Pow(2, 128)
  {
    hide Pow;
    Pow2Constants();
    PowSum(2, 32, 32, LIMB, LIMB);
    PowMonotone(2, 64, 128);
  }

  /** Whether the decimal mant * 10^q is read back as the double. */
  method ReadBack(tmp: Mpb, mant: nat, q: int, m: nat, e: int, ghost a: nat) returns (same: bool)
    requires tmp.tab.Length == DBIGNUM_LEN_MAX && 0 < mant < DLIMB && -361 <= q <= 309
    requires Finite(a) && Splits(a, m, e)
    modifies tmp, tmp.tab
    ensures same <==> ReadsAs(a, mant, q)
  {
    hide Pow, ReadsAs, Splits, Rounded, Numerator, Denominator, NearestEven, Val;
    tmp.SetU64(mant);
    LimbsOf64(mant);
    ReadFits(mant, tmp.len, q);
    var m1, e1, g, r := MulPowRoundToD(tmp, 5, 1, q, Nearest);
    SameSplit(a, m, e, m1, e1, Numerator(mant, 1074, 5, 1, q), Denominator(1074, 5, 1, q), g, r);
    ReadFraction(a, mant, q);
    same := m1 == m && e1 == e;
  }

  /** One conversion to digits, for the exponent d. */
  method Digits(tmp: Mpb, m: nat, e: int, p: nat, d: int, ghost a: nat) returns (mant: nat)
    requires tmp.tab.Length == DBIGNUM_LEN_MAX && 1 <= p <= 17
    requires Finite(a) && Splits(a, m, e) && 0 <= d - 1 - MulLog2Radix(e - 1) <= 1
    requires DigitsAt(Units(a), d - p) < DLIMB
    modifies tmp, tmp.tab
    ensures mant == DigitsAt(Units(a), d - p)
  {
    hide Pow, Units, Numerator, Denominator, RoundDiv, RoundFits, Encode, Val, Tens, Below;
    PrintFits(m, e, p, d);
    MulPowRound(tmp, m, e - 53, 5, 1, p - d, Nearest);
    PrintFraction(a, m, e, d - p, Nearest);
    mant := tmp.GetU64();
  }

  lemma PowersOfTen(p: nat)
    requires p <= 17
    ensures 0 < Pow(10, p) && 2 * Pow(10, p) < DLIMB
    ensures Pow(10, 16) == 10000000000000000
  {
    PowPositive(10, p);
    PowMonotone(10, p, 17);
    PowSum(10, 4, 4, 10000, 10000) by { assert Pow(10, 4) == 10000; }
    PowSum(10, 8, 8, 100000000, 100000000);
    PowNext(10, 16);
  }

  /** The digits tried for p digits: at most one step of the exponent is needed. */
  method TryDigits(tmp: Mpb, m: nat, e: int, p: nat, e0: int, ghost a: nat) returns (mant: nat, d: int)
    requires tmp.tab.Length == DBIGNUM_LEN_MAX && 1 <= p <= 17
    requires Finite(a) && Splits(a, m, e) && e0 == 1 + MulLog2Radix(e - 1) && GoodExponent(Units(a), e0)
    modifies tmp, tmp.tab
    ensures Tried(Units(a), e0, p, d, mant) && e0 <= d <= e0 + 1
    ensures Pow(10, p - 1) <= mant < Pow(10, p)
  {
    hide Pow, Units, DigitsAt, Splits, GoodExponent, Dec;
    PowersOfTen(p);
    var mantMax := PowUi(10, p);
    d := e0;
    EnoughDigits(Units(a), e0, p);
    mant := Digits(tmp, m, e, p, d, a);
    while mant >= mantMax
      invariant d == e0 || (d == e0 + 1 && DigitsAt(Units(a), e0 - p) >= Pow(10, p) && mant < mantMax)
      invariant mant == DigitsAt(Units(a), d - p)
      decreases e0 + 1 - d
    {
      OneDigitLess(Units(a), e0, p);
      d := d + 1;
      mant := Digits(tmp, m, e, p, d, a);
    }
    TriedDigits(Units(a), e0, p, d, mant);
  }

  /** Drop the trailing zeros of the digits. */
  method DropZeros(mant0: nat, p0: nat, ghost a: nat, ghost d: int) returns (mant: nat, p: nat)
    requires p0 >= 1 && Pow(10, p0 - 1) <= mant0 < Pow(10, p0)
    ensures 1 <= p <= p0 && Pow(10, p - 1) <= mant < Pow(10, p) && mant % 10 != 0 && mant <= mant0
    ensures ReadsAs(a, mant, d - p) <==> ReadsAs(a, mant0, d - p0)
    ensures Dec(mant, d - p) == Dec(mant0, d - p0)
  {
    hide Pow, ReadsAs, Dec;
    mant, p := mant0, p0;
    PowPositive(10, p - 1);
    while mant % 10 == 0
      invariant 1 <= p <= p0 && Pow(10, p - 1) <= mant < Pow(10, p) && 0 < mant <= mant0
      invariant ReadsAs(a, mant, d - p) <==> ReadsAs(a, mant0, d - p0)
      invariant Dec(mant, d - p) == Dec(mant0, d - p0)
      decreases mant
    {
      DropZero(a, mant / 10, d - p);
      DecMove(mant / 10, d - p, 1);
      PowTen();
      PowZero(10);
      PowNext(10, p - 1);
      if p >= 2 {
        PowNext(10, p - 2);
      } else {
        PowTen();
      }
      mant := mant / 10;
      p := p - 1;
      PowPositive(10, p - 1);
    }
  }

  /** The double lies in the binade of its exponent. */
  lemma InBinade(u: nat, m: nat, t: nat, s: nat)
    requires MANT <= m < 2 * MANT && u * Pow(2, s) == m * Pow(2, t) && t - s + 52 >= 0
    ensures Pow(2, t - s + 52) <= u < 2 * Pow(2, t - s + 52)
  {
    hide Pow;
    MantIsPower();
    PowPositive(2, t);
    PowPositive(2, s);
    var w := Pow(2, t - s + 52);
    PowAdd(2, t - s + 52, s);
    PowAdd(2, 52, t);
    MulMonotone(MANT, m, Pow(2, t));
    MulStrictlyMonotone(m, 2 * MANT, Pow(2, t));
    CancelLeft(w, u, Pow(2, s));
    MulAssoc(2, w, Pow(2, s));
    MulAssoc(2, MANT, Pow(2, t));
    if u >= 2 * w {
      MulMonotone(2 * w, u, Pow(2, s));
    }
  }

  /** The estimate of the decimal exponent is good for every finite double. */
  lemma ExponentIsGood(a: nat, m: nat, e: int)
    requires Splits(a, m, e)
    ensures GoodExponent(Units(a), 1 + MulLog2Radix(e - 1))
  {
    hide Pow, Units, Encode, Tens, Below;
    var u, f, g := Units(a), MulLog2Radix(e - 1), GridOf(e);
    InBinade(u, m, g.t, g.s);
    var w := Pow(2, e - 1 + 1074);
    EstimateExact(e - 1);
    MulMonotone(w, u, Below(f));
    MulStrictlyMonotone(u, 2 * w, Below(f + 1));
    MulAssoc(2, w, Below(f + 1));
  }

  /** Zero does not read as a positive double. */
  lemma ZeroReadsElsewhere(a: nat, k: nat, q: int)
    requires Finite(a) && ReadsAs(a, k, q)
    ensures k >= 1
  {
    hide Units, Tens, Below, Distance;
    if k == 0 {
      assert NotWorse(a, 0, 0, Below(q));
      UnitsIncreasing(0, a);
      ZeroIsNearest(Units(a), Below(q));
      UnitsAt(0, 0, 0);
    }
  }

  lemma ZeroIsNearest(u: nat, b: nat)
    requires u > 0 && b > 0
    ensures Distance(u, 0, b) > Distance(0, 0, b)
  {
    MulPositive(u, b);
  }

  /** No decimal with fewer than p digits reads as `a`. */
  ghost predicate NoShorter(a: nat, p: nat) {
    forall k: nat, q: int :: p >= 1 && ReadsAs(a, k, q) ==> k >= Pow(10, p - 1)
  }

  lemma OneDigitIsShortest(a: nat)
    requires Finite(a)
    ensures NoShorter(a, 1)
  {
    hide ReadsAs;
    PowZero(10);
    forall k: nat, q: int | ReadsAs(a, k, q)
      ensures k >= 1
    {
      ZeroReadsElsewhere(a, k, q);
    }
  }

  /** When the decimal tried with p digits does not read back, none with p digits does, unless the search misses
      it. */
  lemma FailureIsFinal(a: nat, e0: int, p: nat, d: int, mant: nat)
    requires Finite(a) && p >= 1 && GoodExponent(Units(a), e0) && Tried(Units(a), e0, p, d, mant)
    requires !ReadsAs(a, mant, d - p)
    ensures NoShorter(a, p + 1) <==> !MissesAt(a, p)
  {
    hide ReadsAs, Tried, GoodExponent, Pow, Units, MissesAt;
    TriedMissesAt(a, e0, p, d, mant);
  }

  /** The search misses nothing with any number of digits from lo to hi. */
  ghost predicate MissesNone(a: nat, lo: nat, hi: nat)
    requires Finite(a)
  {
    forall p: nat :: 1 <= lo <= p <= hi ==> !MissesAt(a, p)
  }

  /** The decimal tried with t digits reads back and has p digits: nothing is missed from p to t digits. */
  lemma SuccessMissesNone(a: nat, e0: int, t: nat, d: int, mant0: nat, p: nat, mant: nat)
    requires Finite(a) && 1 <= p <= t && GoodExponent(Units(a), e0) && Tried(Units(a), e0, t, d, mant0)
    requires ReadsAs(a, mant, d - p) && mant < Pow(10, p) && Dec(mant, d - p) == Dec(mant0, d - t)
    requires ReadsAs(a, mant0, d - t)
    ensures MissesNone(a, p, t)
  {
    hide ReadsAs, Tried, GoodExponent, Pow, Units, Dec, MissesAt;
    forall r: nat | p <= r <= t
      ensures !MissesAt(a, r)
    {
      if r == t {
        TriedMissesAt(a, e0, t, d, mant0);
      } else {
        PowMonotone(10, p, r);
        SkippedHits(a, e0, t, d, mant0, r, mant, d - p);
      }
    }
  }

  /** The result is the shortest exactly when nothing is missed at all. */
  lemma ShortestIff(a: nat, p: nat)
    requires Finite(a) && 1 <= p <= 17 && MissesNone(a, p, 16)
    requires p > 1 ==> (NoShorter(a, p) <==> !MissesAt(a, p - 1))
    ensures NoShorter(a, p) <==> MissesNone(a, 1, 16)
    ensures Symmetric(a) ==> NoShorter(a, p)
  {
    hide ReadsAs, Pow, Units, MissesAt, Symmetric;
    if p == 1 {
      OneDigitIsShortest(a);
    } else {
      if NoShorter(a, p) {
        forall r: nat | 1 <= r < p
          ensures !MissesAt(a, r)
        {
          if MissesAt(a, r) {
            MissesAreAsymmetric(a, r);
            PowMonotone(10, r, p - 1);
            assert false;
          }
        }
      }
      if Symmetric(a) && MissesAt(a, p - 1) {
        MissesAreAsymmetric(a, p - 1);
        assert false;
      }
    }
  }

  /** The free-format digits of a finite positive double: mant * 10^(e10 - p) with p digits. It reads back as the
      double, and no decimal of p digits is closer to it. No decimal with fewer digits reads back, if and only if
      the search misses none of 1 to 16 digits; it misses one only where the double is a power of two. */
  method FreeFormatDigits(a: nat) returns (mant: nat, e10: int, p: nat)
    requires Finite(a)
    ensures 1 <= p <= 17 && Pow(10, p - 1) <= mant < Pow(10, p) && mant % 10 != 0
    ensures ReadsAs(a, mant, e10 - p)
    ensures Closest(Units(a), p, mant, e10 - p)
    ensures NoShorter(a, p) <==> MissesNone(a, 1, 16)
    ensures Symmetric(a) ==> NoShorter(a, p)
  {
    hide Pow, Units, ReadsAs, Splits, Tried, GoodExponent, NoShorter, Symmetric, MissesAt, Closest, Dec;
    var m, e := Split(a);
    var e0 := 1 + MulLog2Radix(e - 1);
    ExponentIsGood(a, m, e);
    var tmp := new Mpb(DBIGNUM_LEN_MAX);
    var p1: nat := 17;
    var found := false;
    mant, e10, p := 0, 0, 18;
    while true
      invariant 1 <= p1 <= 17 && fresh(tmp) && fresh(tmp.tab) && tmp.tab.Length == DBIGNUM_LEN_MAX
      invariant !found ==> p1 == 17
      invariant found ==> p == p1 + 1 <= 17 && Pow(10, p - 1) <= mant < Pow(10, p) && mant % 10 != 0
      invariant found ==> ReadsAs(a, mant, e10 - p) && Closest(Units(a), p, mant, e10 - p)
      invariant found ==> MissesNone(a, p, 16)
      decreases p1
    {
      ghost var tried := p1;
      var mant1, d := TryDigits(tmp, m, e, p1, e0, a);
      ghost var mant0 := mant1;
      if !found {
        FirstTryReads(a, e0, d, mant1);
      }
      var p2;
      mant1, p2 := DropZeros(mant1, p1, a, d);
      var ok := true;
      if found {
        PowersOfTen(p2);
        ok := ReadBack(tmp, mant1, d - p2, m, e, a);
      }
      if !ok {
        FailureIsFinal(a, e0, tried, d, mant0);
        break;
      }
      SuccessMissesNone(a, e0, tried, d, mant0, p2, mant1);
      TriedClosest(Units(a), e0, tried, d, mant0, p2, mant1, d - p2);
      p, e10, mant, found := p2, d, mant1, true;
      if p == 1 {
        break;
      }
      p1 := p - 1;
    }
    ShortestIff(a, p);
  }

  /** The first try, with seventeen digits, needs no check. */
  lemma FirstTryReads(a: nat, e0: int, d: int, mant: nat)
    requires Finite(a) && GoodExponent(Units(a), e0) && Tried(Units(a), e0, 17, d, mant)
    requires mant >= Pow(10, 16)
    ensures ReadsAs(a, mant, d - 17)
  {
    hide Pow, Units, ReadsAs, GoodExponent, DigitsAt;
    PowersOfTen(16);
    SeventeenDigitsRead(a, d - 17);
  }

  // ---- powers of two ----

  /** 2^-44, whose lower neighbour is half as far away as the upper one. */
  const TWO_TO_MINUS_44: nat := 979 * MANT

  lemma UnitsOfExample()
    ensures Units(TWO_TO_MINUS_44) == Pow(2, 977) * (2 * MANT)
    ensures GapAbove(TWO_TO_MINUS_44) == 2.0 * Pow(2, 977) as real
    ensures GapBelow(TWO_TO_MINUS_44) == Pow(2, 977) as real
  {
    hide Pow, Units;
    UnitsAt(TWO_TO_MINUS_44, 979, 0);
    PowNext(2, 977);
    UnitsNext(TWO_TO_MINUS_44);
    UnitsNext(TWO_TO_MINUS_44 - 1);
  }

  lemma TwoTo44()
    ensures Pow(2, 44) == 0x1000_0000_0000
  {
    assert Pow(2, 6) == 64;
    PowSum(2, 6, 6, 64, 64);
    Pow2Constants();
    PowSum(2, 32, 12, LIMB, 4096);
  }

  lemma TenTo29()
    ensures Pow(10, 29) == 100000000000000000000000000000 && Pow(10, 16) == 10000000000000000
  {
    assert Pow(10, 4) == 10000 && Pow(10, 1) == 10;
    PowSum(10, 4, 4, 10000, 10000);
    PowSum(10, 4, 1, 10000, 10);
    PowSum(10, 8, 8, 100000000, 100000000);
    PowSum(10, 8, 5, 100000000, 100000);
    PowSum(10, 16, 13, 10000000000000000, 10000000000000);
  }

  lemma ExamplePowers()
    ensures Pow(2, 44) == 0x1000_0000_0000 && Pow(10, 29) == 100000000000000000000000000000
    ensures Pow(10, 16) == 10000000000000000
    ensures Pow(2, 1074) == Pow(2, 977) * (2 * MANT) * 0x1000_0000_0000
  {
    hide Pow;
    MantIsPower();
    TwoTo44();
    TenTo29();
    PowSum(2, 977, 53, Pow(2, 977), 2 * MANT);
    PowSum(2, 1030, 44, Pow(2, 1030), 0x1000_0000_0000);
  }

  lemma ExampleDecimal(k: nat)
    ensures 100000000000000000000000000000.0 * Dec(k, -29)
         == k as real * (2 * MANT) as real * 17592186044416.0 * Pow(2, 977) as real
  {
    hide Pow;
    ExamplePowers();
    TensBelow(-29);
    var z := Pow(2, 977);
    assert k * Tens(-29) == (k * (2 * MANT) * 0x1000_0000_0000) * z by {
      Rearrange(k, z * (2 * MANT), 0x1000_0000_0000);
      Rearrange(z, 2 * MANT, 0x1000_0000_0000);
      MulAssoc(k * (2 * MANT), 0x1000_0000_0000, z);
      MulAssoc(k, 2 * MANT, 0x1000_0000_0000 * z);
    }
    RealProduct(k * (2 * MANT) * 0x1000_0000_0000, z);
    var y := (k * Tens(-29)) as real / 100000000000000000000000000000.0;
    assert y == Dec(k, -29);
  }

  /** The digits of 2^-44 at sixteen digits. */
  lemma ExampleDigits()
    ensures DigitsAt(Units(TWO_TO_MINUS_44), -29) == 5684341886080801
  {
    hide Pow, Units;
    UnitsOfExample();
    ExamplePowers();
    TensBelow(-29);
    PowPositive(2, 977);
    var u, p := Pow(2, 977) * (2 * MANT), Pow(10, 29);
    PowPositive(2, 1074);
    assert u * p == p * u && u * 0x1000_0000_0000 == 0x1000_0000_0000 * u;
    RoundDivScale(p, 0x1000_0000_0000, u, Nearest);
    DivIs(p, 0x1000_0000_0000, 5684341886080801, p - 5684341886080801 * 0x1000_0000_0000);
  }

  /** For a power of two the result need not be the shortest: a decimal of sixteen digits reads as 2^-44, but the
      one the search tries with sixteen digits does not, so the search keeps seventeen. */
  lemma PowerOfTwoNotShortest(d: int, k: nat)
    requires Tried(Units(TWO_TO_MINUS_44), 1 + MulLog2Radix(-44), 16, d, k)
    ensures Finite(TWO_TO_MINUS_44) && !Symmetric(TWO_TO_MINUS_44) && Splits(TWO_TO_MINUS_44, MANT, -43)
    ensures 5684341886080802 < Pow(10, 16) && ReadsAs(TWO_TO_MINUS_44, 5684341886080802, -29)
    ensures !ReadsAs(TWO_TO_MINUS_44, k, d - 16) && MissesAt(TWO_TO_MINUS_44, 16)
  {
    hide Pow, Units, ReadsAs, Dec, DigitsAt, Splits, GapAbove, GapBelow, GoodExponent, MissesAt;
    var a := TWO_TO_MINUS_44;
    SplitsNormal(a, 979, 0);
    ExamplePowers();
    ExampleDigits();
    UnitsOfExample();
    PowPositive(2, 977);
    ExampleDecimal(5684341886080802);
    ExampleDecimal(5684341886080801);
    WithinReads(a, 5684341886080802, -29);
    assert d == -13 && k == 5684341886080801;
    if ReadsAs(a, k, -29) {
      ReadsWithin(a, k, -29);
    }
    ExponentIsGood(a, MANT, -43);
    TriedMissesAt(a, 1 + MulLog2Radix(-44), 16, d, k);
  }
}
