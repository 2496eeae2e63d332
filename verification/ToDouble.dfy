/** Rounding a big number, or its product with a power of a radix, to a double. */
module ToDouble {
  import opened Bytes
  import opened Powers
  import opened Limbs
  import opened Division
  import opened Rounding
  import opened Bignum
  import opened RadixPower
  import opened Doubles

  /** The grid of a double: significands are multiples of 2^t units, and `s` leading significand bits are lost
      to a subnormal result. */
  datatype Grid = Grid(t: nat, s: nat)

  /** The grid of a number in [2^(e - 1), 2^e). */
  function GridOf(e: int): (g: Grid)
    ensures g.t == 0 || g.s == 0
    ensures e == g.t - g.s - 1021
  {
    if e < -1021 then Grid(0, -1021 - e) else Grid(e + 1021, 0)
  }

  /** The significand on the grid, moved to 53 bits; a carry out of the top moves the exponent up by one. */
  ghost predicate Moved(m: nat, e: int, r: nat, g: Grid) {
    || (m == r * Pow(2, g.s) && m < 2 * MANT && e == g.t - g.s - 1021)
    || (r * Pow(2, g.s) == 2 * MANT && m == MANT && e == g.t - g.s - 1020)
  }

  /** The number v rounded at bit `shift`, for either sign of the shift. */
  function RoundAt(v: nat, shift: int, mode: Mode): (r: nat) {
    PowPositive(2, Max(shift, 0));
    RoundDiv(v * Pow(2, Max(-shift, 0)), Pow(2, Max(shift, 0)), mode)
  }

  /** Rounding keeps a number within the powers of two around it. */
  lemma RoundBelow(n: nat, d: nat, k: nat, mode: Mode)
    requires d > 0 && n < k * d
    ensures RoundDiv(n, d, mode) <= k
  {
    DivMod(n, d);
    if n / d >= k {
      MulMonotone(k, n / d, d);
    }
  }

  lemma RoundAbove(n: nat, d: nat, k: nat, mode: Mode)
    requires d > 0 && n >= k * d
    ensures RoundDiv(n, d, mode) >= k
  {
    DivMod(n, d);
    assert (k - 1) * d == k * d - d;
    if n / d < k {
      MulMonotone(n / d, k - 1, d);
    }
  }

  /** With v in [2^(p + shift - 1), 2^(p + shift)), the rounded number has p bits, or is 2^p. */
  lemma RoundAtBounds(v: nat, shift: int, p: nat, mode: Mode)
    requires p + shift >= 1 && Pow(2, p + shift - 1) <= v < Pow(2, p + shift)
    ensures RoundAt(v, shift, mode) <= Pow(2, p)
    ensures p >= 1 ==> RoundAt(v, shift, mode) >= Pow(2, p - 1)
  {
    hide Pow, RoundDiv;
    PowZero(2);
    if shift >= 0 {
      PowAdd(2, p, shift);
      PowPositive(2, shift);
      RoundBelow(v, Pow(2, shift), Pow(2, p), mode);
      if p >= 1 {
        PowAdd(2, p - 1, shift);
        RoundAbove(v, Pow(2, shift), Pow(2, p - 1), mode);
      }
    } else {
      var k := -shift;
      PowPositive(2, k);
      PowAdd(2, p + shift, k);
      PowAdd(2, p + shift - 1, k);
      MulStrictlyMonotone(v, Pow(2, p + shift), Pow(2, k));
      MulMonotone(Pow(2, p + shift - 1), v, Pow(2, k));
      RoundByOne(v * Pow(2, k), mode);
    }
  }

  /** Below half of the first grid point the rounded number is zero. */
  lemma RoundAtZero(v: nat, shift: int, mode: Mode)
    requires shift >= 1 && v < Pow(2, shift - 1)
    ensures RoundAt(v, shift, mode) == 0
  {
    hide Pow;
    PowZero(2);
    PowNext(2, shift - 1);
    DivIs(v, Pow(2, shift), 0, v);
  }

  /** The rounded number, moved up by the bits lost to a subnormal result, has at most 53 bits, or is 2^53. */
  lemma RoundAtFits(v: nat, shift: int, s: nat, mode: Mode)
    requires 53 - s + shift >= 1 && Pow(2, 53 - s + shift - 1) <= v < Pow(2, 53 - s + shift)
    ensures RoundAt(v, shift, mode) * Pow(2, s) <= 2 * MANT
    ensures RoundAt(v, shift, mode) <= 2 * MANT
    ensures s == 0 ==> RoundAt(v, shift, mode) >= MANT
    ensures s > 53 ==> RoundAt(v, shift, mode) == 0
    ensures RoundAt(v, shift, mode) == 0 || RoundAt(v, shift, mode) * Pow(2, s) >= MANT
  {
    hide Pow, RoundAt;
    MantIsPower();
    PowPositive(2, s);
    var r := RoundAt(v, shift, mode);
    if s <= 53 {
      RoundAtBounds(v, shift, 53 - s, mode);
      PowAdd(2, 53 - s, s);
      MulMonotone(r, Pow(2, 53 - s), Pow(2, s));
      MulMonotone(1, Pow(2, s), r);
      if s <= 52 {
        PowAdd(2, 52 - s, s);
        MulMonotone(Pow(2, 52 - s), r, Pow(2, s));
      } else if r > 0 {
        MulMonotone(1, r, Pow(2, s));
      }
    } else {
      PowMonotone(2, 53 - s + shift, shift - 1);
      RoundAtZero(v, shift, mode);
    }
  }

  /** The final double from a significand of 53 bits and an exponent. */
  function Encode(m: nat, e: int): (a: nat) {
    if m == 0 then 0
    else if e > 1024 then INF_BITS
    else if e < -1073 then 0
    else if e < -1021 then PowPositive(2, -e - 1021); m / Pow(2, -e - 1021)
    else (e + 1022) * MANT + m % MANT
  }

  /** The pattern for the significand r on a grid. */
  function Pattern(r: nat, g: Grid): (a: nat) {
    var a := g.t * MANT + r;
    if a > INF_BITS then INF_BITS else a
  }

  lemma ShiftBack(r: nat, s: nat)
    ensures Pow(2, s) > 0 && (r * Pow(2, s)) / Pow(2, s) == r
  {
    hide Pow;
    PowPositive(2, s);
    DivIs(r * Pow(2, s), Pow(2, s), r, 0);
  }

  lemma HalfShift(r: nat, s: nat, m: nat)
    requires s > 0 && r * Pow(2, s) == 2 * m
    ensures r * Pow(2, s - 1) == m
  {
    hide Pow;
    PowNext(2, s - 1);
    assert r * (2 * Pow(2, s - 1)) == 2 * (r * Pow(2, s - 1));
  }

  /** The final encoding gives the pattern of the rounded number, saturated at infinity. */
  lemma EncodeIsPattern(m: nat, e: int, r: nat, g: Grid)
    requires Moved(m, e, r, g) && (g.t == 0 || g.s == 0)
    requires g.s == 0 ==> r >= MANT
    requires g.s > 53 ==> r == 0
    ensures Encode(m, e) == Pattern(r, g)
  {
    hide Pow;
    PowZero(2);
    if r > 0 && g.s == 0 {
      EncodeNormal(m, e, r, g);
    } else if r > 0 {
      EncodeSubnormal(m, e, r, g);
    }
  }

  lemma EncodeNormal(m: nat, e: int, r: nat, g: Grid)
    requires Moved(m, e, r, g) && g.s == 0 && r >= MANT
    ensures Encode(m, e) == Pattern(r, g)
  {
    hide Pow;
    PowZero(2);
    assert r * Pow(2, 0) == r;
  }

  lemma EncodeSubnormal(m: nat, e: int, r: nat, g: Grid)
    requires Moved(m, e, r, g) && 0 < g.s <= 53 && g.t == 0 && r > 0
    ensures Encode(m, e) == Pattern(r, g)
  {
    hide Pow;
    MantIsPower();
    PowPositive(2, g.s);
    MulMonotone(1, r, Pow(2, g.s));
    ShiftBack(r, g.s);
    PowMonotone(2, 1, g.s);
    PowOne();
    MulMonotone(2, Pow(2, g.s), r);
    if m != r * Pow(2, g.s) {
      HalfShift(r, g.s, MANT);
      ShiftBack(r, g.s - 1);
      PowZero(2);
    }
  }

  method RoundShift(a: Mpb, shift: int, mode: Mode)
    requires a.Valid() && a.Normal() && a.Value() > 0
    requires shift < 0 ==> a.len + (-shift) / 32 + 1 <= a.tab.Length
    modifies a, a.tab
    ensures a.Valid() && a.Normal() && a.Value() == RoundAt(old(a.Value()), shift, mode)
  {
    hide Pow, Val, RoundAt, RoundDiv;
    RoundAtIs(a.Value(), shift, mode);
    a.ShrRound(shift, mode);
  }

  /** Move a significand of fewer bits up to 53 bits. */
  method MoveSignificand(r: nat, g: Grid) returns (m: nat, e: int)
    requires r * Pow(2, g.s) <= 2 * MANT
    ensures Moved(m, e, r, g)
  {
    hide Pow;
    m := r * Pow(2, g.s);
    e := g.t - g.s - 1021;
    if m >= 2 * MANT {
      m := m / 2;
      e := e + 1;
    }
  }

  /** Round a number a * 2^-eOff to 53 bits, or to fewer when the result is subnormal. */
  method RoundToD(a: Mpb, eOff: int, mode: Mode) returns (m: nat, e: int, ghost g: Grid)
    requires a.Valid() && a.Normal() && a.len + 2 <= a.tab.Length
    modifies a, a.tab
    ensures old(a.Value()) == 0 ==> m == 0
    ensures old(a.Value()) > 0 ==> RoundedTo(old(a.Value()), eOff, mode, m, e, g)
  {
    hide Pow, Val, RoundedTo;
    if a.tab[0] == 0 && a.len == 1 {
      ZeroLimb(a.tab[..a.len]);
      return 0, 0, Grid(0, 0);
    }
    PositiveLimbs(a.tab[..a.len]);
    m, e, g := RoundPositive(a, eOff, mode);
  }

  lemma PositiveLimbs(s: seq<u32>)
    requires s != [] && (|s| == 1 || s[|s| - 1] != 0) && !(s[0] == 0 && |s| == 1)
    ensures Val(s) > 0
  {
    hide Pow;
    ValZeroIff(s);
  }

  /** The binade of v * 2^-eOff, and its rounded significand and exponent. */
  ghost predicate RoundedTo(v: nat, eOff: int, mode: Mode, m: nat, e: int, g: Grid) {
    && 53 - g.s + (g.t - 1074 + eOff) >= 1 && (g.t == 0 || g.s == 0)
    && Pow(2, 53 - g.s + (g.t - 1074 + eOff) - 1) <= v < Pow(2, 53 - g.s + (g.t - 1074 + eOff))
    && Moved(m, e, RoundAt(v, g.t - 1074 + eOff, mode), g)
  }

  method RoundPositive(a: Mpb, eOff: int, mode: Mode) returns (m: nat, e: int, ghost g: Grid)
    requires a.Valid() && a.Normal() && a.Value() > 0 && a.len + 2 <= a.tab.Length
    modifies a, a.tab
    ensures RoundedTo(old(a.Value()), eOff, mode, m, e, g)
  {
    hide Pow, Val, RoundAt, Moved;
    ghost var v := a.Value();
    var log2 := a.FloorLog2();
    var e0 := log2 + 1 - eOff;
    var grid := GridOf(e0);
    g := grid;
    var prec := if e0 < -1021 then 53 - (-1021 - e0) else 53;
    var shift := e0 + eOff - prec;
    assert prec == 53 - g.s && shift == g.t - 1074 + eOff;
    RoundAtFits(v, shift, g.s, mode);
    RoundShift(a, shift, mode);
    MulMonotone(1, Pow(2, g.s), a.Value()) by { PowPositive(2, g.s); }
    var r := a.GetU64();
    m, e := MoveSignificand(r, grid);
  }

  lemma RoundAtIs(v: nat, shift: int, mode: Mode)
    ensures shift < 0 ==> RoundAt(v, shift, mode) == v * Pow(2, -shift)
    ensures shift >= 0 ==> Pow(2, shift) > 0 && RoundAt(v, shift, mode) == RoundDiv(v, Pow(2, shift), mode)
  {
    hide Pow, RoundDiv;
    PowZero(2);
    if shift < 0 {
      RoundByOne(v * Pow(2, -shift), mode);
    } else {
      PowPositive(2, shift);
    }
  }

  // ---- the exact product, rounded ----

  /** (m, e) is num / den units rounded on the grid g of the binade it lies in; r is the significand there. */
  ghost predicate Rounded(m: nat, e: int, num: nat, den: nat, g: Grid, r: nat, mode: Mode)
    requires den > 0
  {
    && (g.t == 0 || g.s == 0)
    && Moved(m, e, r, g)
    && r == GridRound(num, den, g.t, mode)
    && r <= 2 * MANT
    && (g.s == 0 ==> r >= MANT)
    && (g.s > 53 ==> r == 0)
    && (r == 0 || r * Pow(2, g.s) >= MANT)
    && (g.t > 0 ==> MANT * (den * Pow(2, g.t)) <= num)
  }

  function GridRound(num: nat, den: nat, t: nat, mode: Mode): (r: nat)
    requires den > 0
  {
    PowPositive(2, t);
    MulPositive(den, Pow(2, t));
    RoundDiv(num, den * Pow(2, t), mode)
  }

  /** What is rounded to nearest on its grid is the nearest double. */
  lemma RoundedNearest(m: nat, e: int, num: nat, den: nat, g: Grid, r: nat)
    requires den > 0 && Rounded(m, e, num, den, g, r, Nearest)
    ensures NearestEven(Encode(m, e), num, den)
  {
    hide Pow, RoundDiv, Encode, Moved, NearestEven;
    PowPositive(2, g.t);
    MulPositive(den, Pow(2, g.t));
    EncodeIsPattern(m, e, r, g);
    if g.t * MANT + r <= INF_BITS {
      GridNearest(g.t, num, den, r);
    } else {
      PowMonotone(2, 2046, g.t);
      UnitsAt(INF_BITS, 2047, 0);
      MulMonotone(Pow(2, 2046), Pow(2, g.t), den * MANT);
      assert Units(INF_BITS) * den == (den * MANT) * Pow(2, 2046);
      assert MANT * (den * Pow(2, g.t)) == (den * MANT) * Pow(2, g.t);
      OverflowNearest(num, den);
    }
  }

  /** A rounded quotient depends on the powers of two only through the difference of their exponents. */
  lemma SameRatio(m: nat, d: nat, k: nat, s: nat, k1: nat, s1: nat, mode: Mode)
    requires d > 0 && k - s == k1 - s1
    ensures Pow(2, s) > 0 && d * Pow(2, s) > 0 && Pow(2, s1) > 0 && d * Pow(2, s1) > 0
    ensures RoundDiv(m * Pow(2, k), d * Pow(2, s), mode) == RoundDiv(m * Pow(2, k1), d * Pow(2, s1), mode)
  {
    hide Pow, RoundDiv;
    CancelPowers(m, d, k, s, mode);
    CancelPowers(m, d, k1, s1, mode);
  }

  /** A product without a division, rounded at bit t - x, is the fraction rounded on the grid t. */
  lemma ExactOnGrid(w: nat, x: int, t: nat, mode: Mode)
    ensures Pow(2, Max(-x, 0)) > 0
    ensures RoundAt(w, t - x, mode) == GridRound(w * Pow(2, Max(x, 0)), Pow(2, Max(-x, 0)), t, mode)
  {
    hide Pow, RoundDiv;
    PowPositive(2, Max(-x, 0));
    PowAdd(2, Max(-x, 0), t);
    SameRatio(w, 1, Max(x - t, 0), Max(t - x, 0), Max(x, 0), Max(-x, 0) + t, mode);
  }

  lemma ExactAbove(w: nat, x: int, t: nat)
    requires 52 + t - x >= 0 && Pow(2, 52 + t - x) <= w
    ensures MANT * (Pow(2, Max(-x, 0)) * Pow(2, t)) <= w * Pow(2, Max(x, 0))
  {
    hide Pow;
    var p := Pow(2, Max(x, 0));
    MulMonotone(Pow(2, 52 + t - x), w, p);
    PowAdd(2, 52 + t - x, Max(x, 0));
    PowAdd(2, 52, Max(-x, 0) + t);
    PowAdd(2, Max(-x, 0), t);
    MantIsPower();
  }

  /** A sticky quotient, rounded at bit k + t - x, is the fraction rounded on the grid t. */
  lemma QuotientOnGrid(v: nat, d: nat, k: nat, x: int, t: nat, mode: Mode)
    requires d > 0 && k + t - x >= 2
    ensures Pow(2, Max(-x, 0)) > 0 && d * Pow(2, Max(-x, 0)) > 0
    ensures RoundAt(Sticky(v * Pow(2, k), d), k + t - x, mode)
         == GridRound(v * Pow(2, Max(x, 0)), d * Pow(2, Max(-x, 0)), t, mode)
  {
    hide Pow, RoundDiv, Sticky, RoundAt, GridRound;
    var s, up, down := k + t - x, Max(x, 0), Max(-x, 0);
    PowPositive(2, down);
    MulPositive(d, Pow(2, down));
    RoundAtIs(Sticky(v * Pow(2, k), d), s, mode);
    RoundStickyShift(v * Pow(2, k), d, s, mode);
    SameRatio(v, d, k, s, up, down + t, mode);
    GridRoundIs(v * Pow(2, up), d, down, t, mode);
  }

  lemma GridRoundIs(n: nat, d: nat, i: nat, t: nat, mode: Mode)
    requires d > 0
    ensures Pow(2, i) > 0 && d * Pow(2, i) > 0 && d * Pow(2, i + t) > 0
    ensures GridRound(n, d * Pow(2, i), t, mode) == RoundDiv(n, d * Pow(2, i + t), mode)
  {
    hide Pow, RoundDiv;
    PowPositive(2, i);
    PowPositive(2, i + t);
    MulPositive(d, Pow(2, i));
    MulPositive(d, Pow(2, i + t));
    PowAdd(2, i, t);
    MulAssoc(d, Pow(2, i), Pow(2, t));
  }

  /** A sticky quotient that reaches an even number is the floor of one that does. */
  lemma StickyAbove(n: nat, d: nat, c: nat)
    requires d > 0 && c % 2 == 0 && Sticky(n, d) >= c
    ensures c * d <= n
  {
    DivMod(n, d);
    MulMonotone(c, n / d, d);
  }

  lemma QuotientAbove(v: nat, d: nat, k: nat, x: int, t: nat)
    requires d > 0 && 52 + k + t - x >= 1 && Pow(2, 52 + k + t - x) <= Sticky(v * Pow(2, k), d)
    ensures MANT * ((d * Pow(2, Max(-x, 0))) * Pow(2, t)) <= v * Pow(2, Max(x, 0))
  {
    hide Pow, Sticky;
    var j := 52 + k + t - x;
    PowNext(2, j - 1);
    StickyAbove(v * Pow(2, k), d, Pow(2, j));
    var p, y := Pow(2, Max(x, 0)), Pow(2, Max(-x, 0) + 52 + t);
    PowAdd(2, j, Max(x, 0));
    PowAdd(2, Max(-x, 0) + 52 + t, k);
    var q := Pow(2, k);
    MulMonotone(Pow(2, j) * d, v * q, p);
    assert (Pow(2, j) * d) * p == (d * y) * q by {
      assert (Pow(2, j) * d) * p == d * (Pow(2, j) * p);
      MulAssoc(d, y, q);
    }
    assert (v * q) * p == (v * p) * q;
    PowPositive(2, k);
    if d * y > v * p {
      MulStrictlyMonotone(v * p, d * y, q);
    }
    PowAdd(2, Max(-x, 0) + t, 52);
    PowAdd(2, Max(-x, 0), t);
    MantIsPower();
    assert d * y == MANT * ((d * Pow(2, Max(-x, 0))) * Pow(2, t)) by {
      MulAssoc(d, Pow(2, Max(-x, 0)), Pow(2, t));
      assert d * (Pow(2, Max(-x, 0) + t) * MANT) == MANT * (d * Pow(2, Max(-x, 0) + t));
    }
  }

  /** Round a * radix^f to a double, with an exact product or a sticky quotient of at least 55 bits. */
  method MulPowRoundToD(a: Mpb, radix1: nat, radixShift: nat, f: int, mode: Mode)
    returns (m: nat, e: int, ghost g: Grid, ghost r: nat)
    requires a.Valid() && a.Normal() && a.Value() > 0 && (radix1 == 1 || OddRadix(radix1))
    requires ParseFits(a.Value(), a.len, radix1, radixShift, f, a.tab.Length)
    modifies a, a.tab
    ensures Rounded(m, e, Numerator(old(a.Value()), 1074, radix1, radixShift, f),
                    Denominator(1074, radix1, radixShift, f), g, r, mode)
  {
    hide Pow, Val, RoundDiv, Sticky;
    if f >= 0 || radix1 == 1 {
      m, e, g, r := ProductToD(a, radix1, radixShift, f, mode);
    } else {
      m, e, g, r := QuotientToD(a, radix1, radixShift, f, mode);
    }
  }

  /** The limbs that parsing needs. */
  ghost predicate ParseFits(v: nat, len: nat, radix1: nat, radixShift: nat, f: int, cap: nat)
    requires radix1 == 1 || OddRadix(radix1)
  {
    if f >= 0 || radix1 == 1 then
      cap >= 2 && v * Pow(radix1, Max(f, 0)) < Pow(LIMB, cap - 2)
    else
      len + ExtraBits(-f, DIGITS_PER_LIMB[radix1 - 2], radixShift, false, 55, 0) / 32 + 3 <= cap
  }

  method ProductToD(a: Mpb, radix1: nat, radixShift: nat, f: int, mode: Mode)
    returns (m: nat, e: int, ghost g: Grid, ghost r: nat)
    requires a.Valid() && a.Normal() && a.Value() > 0 && (radix1 == 1 || (f >= 0 && OddRadix(radix1)))
    requires ParseFits(a.Value(), a.len, radix1, radixShift, f, a.tab.Length)
    modifies a, a.tab
    ensures Rounded(m, e, Numerator(old(a.Value()), 1074, radix1, radixShift, f),
                    Denominator(1074, radix1, radixShift, f), g, r, mode)
  {
    hide Pow, Val, RoundDiv, Sticky, RoundAt, Moved, GridRound;
    ghost var v, cap := a.Value(), a.tab.Length;
    ghost var w, x := v * Pow(radix1, Max(f, 0)), 1074 + f * radixShift;
    ProductParts(v, radix1, radixShift, f);
    FitsWithRoom(w, cap, 2);
    ProductPositive(v, radix1, Max(f, 0));
    var eOff, k := MulPow(a, radix1, radixShift, f, false, 55);
    assert a.Value() == w && eOff == 1074 - x;
    TopLimb(a.tab[..a.len]);
    LenBound(a.tab[..a.len], cap - 2);
    m, e, g := RoundToD(a, eOff, mode);
    r := RoundAt(w, g.t - x, mode);
    RoundAtFits(w, g.t - x, g.s, mode);
    ExactOnGrid(w, x, g.t, mode);
    if g.t > 0 {
      ExactAbove(w, x, g.t);
    }
  }

  /** The fraction of a product without a division; with radix 1 the power is one. */
  lemma ProductParts(v: nat, radix1: nat, radixShift: nat, f: int)
    requires radix1 == 1 || (f >= 0 && OddRadix(radix1))
    ensures var x := 1074 + f * radixShift;
      && Numerator(v, 1074, radix1, radixShift, f) == (v * Pow(radix1, Max(f, 0))) * Pow(2, Max(x, 0))
      && Denominator(1074, radix1, radixShift, f) == Pow(2, Max(-x, 0))
    ensures f < 0 ==> Pow(radix1, -f) == 1 && Sticky(v * Pow(2, 0), 1) == v * Pow(radix1, 0)
    ensures Pow(2, 0) == 1
  {
    hide Pow;
    PowZero(2);
    PowZero(radix1);
    PowOfOne(Max(-f, 0));
    StickyByOne(v);
  }

  method QuotientToD(a: Mpb, radix1: nat, radixShift: nat, f: int, mode: Mode)
    returns (m: nat, e: int, ghost g: Grid, ghost r: nat)
    requires a.Valid() && a.Normal() && a.Value() > 0 && f < 0 && OddRadix(radix1)
    requires ParseFits(a.Value(), a.len, radix1, radixShift, f, a.tab.Length)
    modifies a, a.tab
    ensures Rounded(m, e, Numerator(old(a.Value()), 1074, radix1, radixShift, f),
                    Denominator(1074, radix1, radixShift, f), g, r, mode)
  {
    hide Pow, Val, RoundDiv, Sticky, RoundAt, Moved, GridRound, Numerator, Denominator;
    ghost var v := a.Value();
    ghost var x, d := 1074 + f * radixShift, Pow(radix1, -f);
    QuotientParts(v, 1074, radix1, radixShift, -f, x, 0);
    var eOff, k := MulPow(a, radix1, radixShift, f, false, 55);
    ghost var w := a.Value();
    ManyBits(v * Pow(2, k), d);
    m, e, g := RoundToD(a, eOff, mode);
    ghost var s := g.t - 1074 + eOff;
    assert s == k + g.t - x;
    r := RoundAt(w, s, mode);
    RoundAtFits(w, s, g.s, mode);
    ShiftAtLeast(w, 53 - g.s + s);
    QuotientOnGrid(v, d, k, x, g.t, mode);
    if g.t > 0 {
      QuotientAbove(v, d, k, x, g.t);
    }
  }

  lemma ManyBits(n: nat, d: nat)
    requires d > 0 && Pow(2, 55) * d <= n
    ensures Sticky(n, d) >= Pow(2, 55) && Pow(2, 55) > 0
  {
    hide Pow;
    PowPositive(2, 55);
    DivMod(n, d);
    if n / d < Pow(2, 55) {
      MulMonotone(n / d + 1, Pow(2, 55), d);
    }
  }

  lemma ShiftAtLeast(w: nat, j: nat)
    requires Pow(2, 55) <= w < Pow(2, j)
    ensures j >= 56
  {
    hide Pow;
    if j <= 55 {
      PowMonotone(2, j, 55);
    }
  }
}
