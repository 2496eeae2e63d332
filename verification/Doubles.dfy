/** IEEE 754 binary64 numbers as bit patterns, and what rounding to nearest even means for them. */
module Doubles {
  import opened Powers
  import opened Limbs
  import opened Rounding

  /** 2^52: the implicit bit of the significand. */
  const MANT: nat := 0x10_0000_0000_0000

  /** The bit pattern of positive infinity. */
  const INF_BITS: nat := 0x7ff * MANT

  lemma MantIsPower()
    ensures Pow(2, 52) == MANT && Pow(2, 53) == 2 * MANT
  {
    Pow2Constants();
    PowSum(2, 8, 8, 256, 256) by { assert Pow(2, 8) == 256; }
    PowSum(2, 16, 4, 65536, 16) by { assert Pow(2, 4) == 16; }
    PowSum(2, 32, 20, LIMB, 0x100000);
    PowNext(2, 52);
  }

  /** The value of a non-negative pattern in units of 2^-1074. Infinity stands for 2^1024, as it does when a
      value is rounded to the nearest pattern. */
  function Units(a: nat): (r: nat) {
    var be, frac := a / MANT, a % MANT;
    if be == 0 then frac else (MANT + frac) * Pow(2, be - 1)
  }

  lemma UnitsStep(a: nat)
    ensures Units(a) < Units(a + 1)
  {
    hide Pow;
    var be, frac := a / MANT, a % MANT;
    PowZero(2);
    if frac < MANT - 1 {
      DivIs(a + 1, MANT, be, frac + 1);
      if be > 0 {
        PowPositive(2, be - 1);
        MulStrictlyMonotone(MANT + frac, MANT + frac + 1, Pow(2, be - 1));
      }
    } else {
      DivIs(a + 1, MANT, be + 1, 0);
      if be > 0 {
        PowPositive(2, be - 1);
        PowNext(2, be - 1);
        MulStrictlyMonotone(MANT + frac, MANT * 2, Pow(2, be - 1));
      }
    }
  }

  /** The order of the patterns is the order of the values. */
  lemma {:induction false} UnitsIncreasing(a: nat, b: nat)
    requires a < b
    ensures Units(a) < Units(b)
    decreases b
  {
    UnitsStep(b - 1);
    if a < b - 1 {
      UnitsIncreasing(a, b - 1);
    }
  }

  function Distance(u: nat, num: nat, den: nat): (r: nat) {
    if u * den >= num then u * den - num else num - u * den
  }

  /** The pattern `a` is num / den units rounded to nearest: no pattern is closer, and if another is as close
      then `a` is even. */
  ghost predicate NearestEven(a: nat, num: nat, den: nat) {
    && a <= INF_BITS
    && forall b: nat :: b <= INF_BITS ==> NotWorse(a, b, num, den)
  }

  ghost predicate NotWorse(a: nat, b: nat, num: nat, den: nat) {
    var x, y := Distance(Units(a), num, den), Distance(Units(b), num, den);
    x <= y && (x == y && b != a ==> a % 2 == 0)
  }

  /** At most one pattern is nearest. */
  lemma NearestEvenUnique(a: nat, b: nat, num: nat, den: nat)
    requires den > 0 && NearestEven(a, num, den) && NearestEven(b, num, den)
    ensures a == b
  {
    hide Units;
    if a < b {
      NearestEvenOrdered(a, b, num, den);
    } else if b < a {
      NearestEvenOrdered(b, a, num, den);
    }
  }

  /** Two even patterns as close to the same number have an odd one between them, which is closer. */
  lemma NearestEvenOrdered(a: nat, b: nat, num: nat, den: nat)
    requires den > 0 && a < b && NearestEven(a, num, den)
    ensures !NearestEven(b, num, den)
  {
    hide Units;
    if NearestEven(b, num, den) {
      assert NotWorse(a, b, num, den) && NotWorse(b, a, num, den);
      assert NotWorse(a, a + 1, num, den);
      assert b >= a + 2;
      UnitsStep(a);
      UnitsIncreasing(a + 1, b);
      MulStrictlyMonotone(Units(a), Units(a + 1), den);
      MulStrictlyMonotone(Units(a + 1), Units(b), den);
    }
  }

  // ---- the grid around a number ----

  lemma UnitsAt(a: nat, be: nat, frac: nat)
    requires frac < MANT && a == be * MANT + frac
    ensures Units(a) == if be == 0 then frac else (MANT + frac) * Pow(2, be - 1)
  {
    hide Pow;
    DivIs(a, MANT, be, frac);
  }

  /** The value of the pattern t * 2^52 + r is r * 2^t: also when r has just become 2^53. */
  lemma UnitsOnGrid(t: nat, r: nat)
    requires r <= 2 * MANT && (t > 0 ==> MANT <= r)
    ensures Units(t * MANT + r) == r * Pow(2, t)
  {
    hide Pow, Units;
    var a := t * MANT + r;
    PowZero(2);
    if r < MANT {
      UnitsAt(a, 0, r);
    } else if r < 2 * MANT {
      UnitsAt(a, t + 1, r - MANT);
    } else {
      UnitsAt(a, t + 2, 0);
      PowNext(2, t);
      MulAssoc(MANT, 2, Pow(2, t));
    }
  }

  /** Above the start of a binade every pattern is on its grid. */
  lemma AboveOnGrid(b: nat, t: nat)
    requires b >= (t + 1) * MANT || t == 0
    ensures exists c: nat :: Units(b) == c * Pow(2, t)
  {
    hide Pow;
    var be, frac := b / MANT, b % MANT;
    PowZero(2);
    if t == 0 {
      assert Units(b) == Units(b) * Pow(2, t);
    } else {
      assert be >= t + 1;
      PowAdd(2, be - 1 - t, t);
      MulAssoc(MANT + frac, Pow(2, be - 1 - t), Pow(2, t));
      assert Units(b) == ((MANT + frac) * Pow(2, be - 1 - t)) * Pow(2, t);
    }
  }

  /** The rounded multiple of d is nearer than any other. */
  lemma NearestMultiple(num: nat, d: nat, c: nat)
    requires d > 0
    ensures var r := RoundDiv(num, d, Nearest);
      && Distance(r, num, d) <= Distance(c, num, d)
      && (Distance(r, num, d) == Distance(c, num, d) && c != r ==> r % 2 == 0)
  {
    hide RoundDiv;
    var r := RoundDiv(num, d, Nearest);
    RoundDivNearest(num, d, Nearest);
    if c > r {
      MulMonotone(r + 1, c, d);
      assert (r + 1) * d == r * d + d;
    } else if c < r {
      MulMonotone(c, r - 1, d);
      assert (r - 1) * d == r * d - d;
    }
  }

  lemma DistanceScaled(c: nat, p: nat, num: nat, den: nat)
    ensures Distance(c * p, num, den) == Distance(c, num, den * p)
  {
    assert (c * p) * den == c * (den * p);
  }

  /** Rounding on the grid of the binade that holds the number is rounding to the nearest pattern. */
  lemma GridNearest(t: nat, num: nat, den: nat, r: nat)
    requires den > 0 && Pow(2, t) > 0 && den * Pow(2, t) > 0
    requires r == RoundDiv(num, den * Pow(2, t), Nearest) && r <= 2 * MANT && t * MANT + r <= INF_BITS
    requires t > 0 ==> MANT <= r && MANT * (den * Pow(2, t)) <= num
    ensures NearestEven(t * MANT + r, num, den)
  {
    hide Pow, Units, RoundDiv;
    var a := t * MANT + r;
    UnitsOnGrid(t, r);
    DistanceScaled(r, Pow(2, t), num, den);
    forall b: nat | b <= INF_BITS
      ensures NotWorse(a, b, num, den)
    {
      GridNotWorse(t, num, den, r, a, b);
    }
  }

  lemma GridNotWorse(t: nat, num: nat, den: nat, r: nat, a: nat, b: nat)
    requires den > 0 && Pow(2, t) > 0 && den * Pow(2, t) > 0
    requires r == RoundDiv(num, den * Pow(2, t), Nearest) && a == t * MANT + r && Units(a) == r * Pow(2, t)
    requires Distance(Units(a), num, den) == Distance(r, num, den * Pow(2, t))
    requires t > 0 ==> MANT * (den * Pow(2, t)) <= num
    ensures NotWorse(a, b, num, den)
  {
    hide Pow, Units, RoundDiv, Distance;
    var p := Pow(2, t);
    EvenPattern(t, r);
    if t == 0 || b >= (t + 1) * MANT {
      AboveOnGrid(b, t);
      var c: nat :| Units(b) == c * p;
      DistanceScaled(c, p, num, den);
      NearestMultiple(num, den * p, c);
      if c == r && b != a {
        SameUnits(a, b);
      }
    } else {
      BelowBinade(b, t, num, den);
      NearestMultiple(num, den * p, MANT);
    }
  }

  lemma SameUnits(a: nat, b: nat)
    requires Units(a) == Units(b)
    ensures a == b
  {
    hide Units;
    if a < b {
      UnitsIncreasing(a, b);
    } else if b < a {
      UnitsIncreasing(b, a);
    }
  }

  lemma EvenPattern(t: nat, r: nat)
    ensures (t * MANT + r) % 2 == r % 2
  {
    var h := 0x8_0000_0000_0000 * t;
    assert t * MANT + r == r + 2 * h;
    EvenSum(r, h);
  }

  lemma EvenSum(x: int, y: int)
    ensures (x + 2 * y) % 2 == x % 2
  {
  }

  lemma BelowBinade(b: nat, t: nat, num: nat, den: nat)
    requires den > 0 && b < (t + 1) * MANT && MANT * (den * Pow(2, t)) <= num
    ensures Distance(Units(b), num, den) > Distance(MANT, num, den * Pow(2, t))
  {
    hide Pow, Units;
    UnitsIncreasing(b, t * MANT + MANT);
    UnitsOnGrid(t, MANT);
    var p := Pow(2, t);
    MulStrictlyMonotone(Units(b), MANT * p, den);
    assert (MANT * p) * den == MANT * (den * p);
  }

  /** From 2^1024 on, infinity is the nearest pattern. */
  lemma OverflowNearest(num: nat, den: nat)
    requires den > 0 && Units(INF_BITS) * den <= num
    ensures NearestEven(INF_BITS, num, den)
  {
    hide Units;
    forall b: nat | b <= INF_BITS
      ensures NotWorse(INF_BITS, b, num, den)
    {
      if b < INF_BITS {
        UnitsIncreasing(b, INF_BITS);
        MulStrictlyMonotone(Units(b), Units(INF_BITS), den);
      }
    }
  }

  /** Up to half of the smallest positive number, zero is the nearest pattern. */
  lemma UnderflowNearest(num: nat, den: nat)
    requires den > 0 && 2 * num <= den
    ensures NearestEven(0, num, den)
  {
    hide Pow, Units;
    PowZero(2);
    DivIs(num, den, 0, num);
    GridNearest(0, num, den, 0);
  }
}
