/** Rounding a quotient to an integer. */
module Rounding {
  import opened Powers

  datatype Mode =
    | Nearest  // ties to even
    | NearestAway  // ties away from zero
    | Truncate

  /** The integer nearest to n / d, or the one below it, by the mode. */
  function RoundDiv(n: nat, d: nat, mode: Mode): (r: nat)
    requires d > 0
  {
    var q, r := n / d, n % d;
    match mode
    case Truncate => q
    case NearestAway => if 2 * r >= d then q + 1 else q
    case Nearest => if 2 * r > d || (2 * r == d && q % 2 == 1) then q + 1 else q
  }

  /** What rounding to nearest promises: the error is at most one half, and the result is even on a tie. */
  lemma RoundDivNearest(n: nat, d: nat, mode: Mode)
    requires d > 0 && mode != Truncate
    ensures var r := RoundDiv(n, d, mode);
      && 2 * (r * d - n) <= d && 2 * (n - r * d) <= d
      && (mode == Nearest && (2 * (r * d - n) == d || 2 * (n - r * d) == d) ==> r % 2 == 0)
      && (mode == NearestAway ==> 2 * (n - r * d) < d)
  {
    var q, r := n / d, n % d;
    DivMod(n, d);
    assert (q + 1) * d == q * d + d;
  }

  /** Truncating gives the integer part. */
  lemma TruncateBelow(n: nat, d: nat)
    requires d > 0
    ensures var r := RoundDiv(n, d, Truncate); r * d <= n < (r + 1) * d
  {
    DivMod(n, d);
    assert (n / d + 1) * d == n / d * d + d;
  }

  /** Rounding to nearest even is the only integer with that promise. */
  lemma RoundDivUnique(n: nat, d: nat, r: nat)
    requires d > 0
    requires 2 * (r * d - n) <= d && 2 * (n - r * d) <= d
    requires 2 * (r * d - n) == d || 2 * (n - r * d) == d ==> r % 2 == 0
    ensures r == RoundDiv(n, d, Nearest)
  {
    hide RoundDiv;
    var q := RoundDiv(n, d, Nearest);
    RoundDivNearest(n, d, Nearest);
    assert (r - q) * d == r * d - q * d;
    CloseMultiples(r - q, d);
    Parity(q);
    Parity(r);
  }

  lemma Parity(q: nat)
    ensures (q + 1) % 2 != q % 2
  {
  }

  lemma CloseMultiples(k: int, d: int)
    requires d > 0 && -d <= k * d <= d
    ensures -1 <= k <= 1
  {
    if k >= 2 {
      MulMonotone(2, k, d);
    } else if k <= -2 {
      MulMonotone(k, -2, d);
    }
  }

  /** The rounding decision for the integer part q, the bit below the point and whether a bit below that is set. */
  function Decide(q: int, bit1: int, sticky: bool, mode: Mode): (r: int) {
    match mode
    case Truncate => q
    case NearestAway => q + bit1
    case Nearest => if bit1 == 0 then q else if sticky then q + 1 else q + q % 2
  }

  lemma RoundByBits(n: nat, half: nat, d: nat, mode: Mode)
    requires half > 0 && d == half * 2
    ensures RoundDiv(n, d, mode) == Decide(n / d, n / half % 2, n % half != 0, mode)
  {
    hide RoundDiv, Decide;
    var bit1, low, r := SplitRemainder(n, half, d);
    BitCases(n, n / d, r, half, d, bit1, low, mode);
  }

  lemma SplitRemainder(n: nat, half: nat, d: nat) returns (bit1: nat, low: nat, r: nat)
    requires half > 0 && d == half * 2
    ensures bit1 == n / half % 2 && low == n % half && r == n % d
    ensures bit1 <= 1 && low < half && r == bit1 * half + low
  {
    bit1, low, r := n / half % 2, n % half, n % d;
    LowBelow(n, half);
    DivDiv(n, half, 2);
  }

  lemma LowBelow(n: nat, half: nat)
    requires half > 0
    ensures 0 <= n % half < half && 0 <= n / half % 2 <= 1
  {
  }

  lemma BitCases(n: nat, q: nat, r: nat, half: nat, d: nat, bit1: nat, low: nat, mode: Mode)
    requires half > 0 && d == half * 2 && q == n / d && r == n % d
    requires bit1 <= 1 && r == bit1 * half + low && low < half
    ensures RoundDiv(n, d, mode) == Decide(q, bit1, low != 0, mode)
  {
    assert bit1 * half == if bit1 == 0 then 0 else half;
  }

  /** The quotient n / d with one sticky bit: its lowest bit is set if the division has a remainder. */
  function Sticky(n: nat, d: nat): (r: nat)
    requires d > 0
  {
    var q := n / d;
    if n % d != 0 && q % 2 == 0 then q + 1 else q
  }

  /** Rounding the sticky quotient at least two bits above its lowest bit loses nothing. */
  lemma RoundSticky(n: nat, d: nat, quarter: nat, mode: Mode)
    requires d > 0 && quarter > 0
    ensures d * (4 * quarter) > 0
    ensures RoundDiv(Sticky(n, d), 4 * quarter, mode) == RoundDiv(n, d * (4 * quarter), mode)
  {
    hide RoundDiv, Decide;
    var q, t, half := n / d, Sticky(n, d), 2 * quarter;
    assert 4 * quarter == 2 * half;
    StickyBits(q, t, half);
    LowBits(n, d, half);
    LowBits(n, d, 2 * half);
    assert d * (2 * half) == 2 * (d * half);
    RoundByBits(t, half, 4 * quarter, mode);
    RoundByBits(n, d * half, d * (4 * quarter), mode);
    StickyMeaning(n, d, half);
  }

  /** The sticky quotient has a bit set below `half` exactly when the exact quotient has. */
  lemma StickyMeaning(n: nat, d: nat, half: nat)
    requires d > 0 && half > 0 && half % 2 == 0
    ensures d * half > 0
    ensures Sticky(n, d) % half != 0 <==> n % (d * half) != 0
  {
    var q, t := n / d, Sticky(n, d);
    StickyBits(q, t, half);
    LowBits(n, d, half);
    DivMod(q, half);
    EvenMultiple(q / half, half);
  }

  lemma EvenMultiple(k: nat, d: nat)
    requires d % 2 == 0
    ensures (k * d) % 2 == 0
  {
    var h := d / 2;
    assert d == 2 * h;
    assert k * (2 * h) == 2 * (k * h);
  }

  /** Setting the lowest bit of an even number changes nothing above it. */
  lemma StickyBits(q: nat, t: nat, half: nat)
    requires t == q || (q % 2 == 0 && t == q + 1)
    requires half > 0 && half % 2 == 0
    ensures t / half == q / half && t / (2 * half) == q / (2 * half)
    ensures t % half == q % half + (t - q)
  {
    if t != q {
      DivMod(q, half);
      EvenRemainder(q, half);
      DivIs(t, half, q / half, q % half + 1);
      DivMod(q, 2 * half);
      EvenRemainder(q, 2 * half);
      DivIs(t, 2 * half, q / (2 * half), q % (2 * half) + 1);
    }
  }

  lemma EvenRemainder(q: nat, d: nat)
    requires d > 0 && d % 2 == 0 && q % 2 == 0
    ensures (q % d) % 2 == 0 && q % d + 1 < d
  {
    DivMod(q, d);
    var h := d / 2;
    assert q / d * d == 2 * ((q / d) * h) by { assert d == 2 * h; }
  }

  /** The part of n below d * half, from the quotient and the remainder by d. */
  lemma LowBits(n: nat, d: nat, half: nat)
    requires d > 0 && half > 0
    ensures d * half > 0
    ensures n % (d * half) == 0 <==> (n / d % half == 0 && n % d == 0)
    ensures n / (d * half) == n / d / half
  {
    DivDiv(n, d, half);
    var k := n / d % half;
    if k > 0 {
      MulMonotone(1, k, d);
    }
  }
}
