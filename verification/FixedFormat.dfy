/** Printing a double with a given number of digits. */
module FixedFormat {
  import opened Bytes
  import opened Powers
  import opened Limbs
  import opened Division
  import opened Rounding
  import opened Bignum
  import opened RadixPower
  import opened Doubles
  import opened ToDouble
  import opened Decimals
  import opened Shortest
  import opened FreeFormat

  // ---- comparing big numbers ----

  /** Below the highest limb that differs nothing matters. */
  lemma {:induction false} CompareAt(a: seq<u32>, b: seq<u32>, i: nat)
    requires |a| == |b| && i < |a| && a[i] < b[i] && a[i + 1..] == b[i + 1..]
    ensures Val(a) < Val(b)
    decreases |a|
  {
    if i == 0 {
      assert a[1..] == b[1..];
    } else {
      assert a[1..][i..] == a[i + 1..] && b[1..][i..] == b[i + 1..];
      CompareAt(a[1..], b[1..], i - 1);
    }
  }

  lemma ShorterIsLess(a: seq<u32>, b: seq<u32>)
    requires a != [] && |a| < |b| && b[|b| - 1] != 0
    ensures Val(a) < Val(b)
  {
    hide Pow, Val;
    ValBound(a);
    TopBound(b);
    PowMonotone(LIMB, |a|, |b| - 1);
  }

  /** The order of two numbers without leading zeros: by length, then from the highest limb down. */
  method MpbCmp(a: Mpb, b: Mpb) returns (r: int)
    requires a.Valid() && a.Normal() && b.Valid() && b.Normal()
    ensures r < 0 <==> a.Value() < b.Value()
    ensures r > 0 <==> a.Value() > b.Value()
  {
    hide Val;
    ghost var s, t := a.tab[..a.len], b.tab[..b.len];
    if a.len < b.len {
      ShorterIsLess(s, t);
      return -1;
    } else if a.len > b.len {
      ShorterIsLess(t, s);
      return 1;
    }
    var i := a.len;
    while i > 0
      invariant 0 <= i <= a.len == b.len && s[i..] == t[i..]
    {
      i := i - 1;
      if a.tab[i] != b.tab[i] {
        if a.tab[i] < b.tab[i] {
          CompareAt(s, t, i);
          return -1;
        } else {
          CompareAt(t, s, i);
          return 1;
        }
      }
      assert s[i..] == [s[i]] + s[i + 1..] && t[i..] == [t[i]] + t[i + 1..];
    }
    assert s[0..] == s && t[0..] == t;
    return 0;
  }

  // ---- the digits, with ties away from zero ----

  /** The digits of u units in units of 10^q, with ties away from zero. */
  function AwayAt(u: nat, q: int): (r: nat) {
    RoundDiv(u * Below(q), Tens(q), NearestAway)
  }

  lemma AwayEnough(u: nat, e0: int, p: nat)
    requires p >= 1 && GoodExponent(u, e0)
    ensures Pow(10, p - 1) <= AwayAt(u, e0 - p)
  {
    hide Pow, Tens, Below, RoundDiv;
    var q := e0 - p;
    CompareFiner(u, q, p - 1, 1);
    RoundAbove(u * Below(q), Tens(q), Pow(10, p - 1), NearestAway);
  }

  lemma AwayReaches(n: nat, d: nat, k: nat)
    requires d > 0 && 2 * n > (2 * k - 1) * d
    ensures RoundDiv(n, d, NearestAway) >= k
  {
    hide RoundDiv;
    RoundDivNearest(n, d, NearestAway);
    var r := RoundDiv(n, d, NearestAway);
    if r < k {
      MulMonotone(r, k - 1, d);
      TwiceLess(k, d);
    }
  }

  /** More than 10 * h - 1/2 steps of the finer grid are more than h - 1/2 of the coarser one. */
  lemma AwayAlmost(u: nat, q: int, r: nat, h: nat)
    requires r == AwayAt(u, q) && h >= 1 && r >= 10 * h
    ensures 2 * (u * Below(q + 1)) > (2 * h - 1) * Tens(q + 1)
  {
    hide Pow, Tens, Below, RoundDiv;
    var t, b := Tens(q), Below(q);
    RoundDivNearest(u * b, t, NearestAway);
    var k := 2 * h - 1;
    CompareFiner(2 * u, q, 1, k);
    PowTen();
    assert (2 * u) * b == 2 * (u * b) && (2 * u) * Below(q + 1) == 2 * (u * Below(q + 1));
    assert k * 10 * t < 2 * (u * b) by {
      MulMonotone(10 * h, r, t);
      assert k * 10 * t == 2 * ((10 * h) * t) - 10 * t;
    }
  }

  lemma AwayOneLess(u: nat, e0: int, p: nat)
    requires p >= 1 && GoodExponent(u, e0) && AwayAt(u, e0 - p) >= Pow(10, p)
    ensures Pow(10, p - 1) <= AwayAt(u, e0 - p + 1) < Pow(10, p)
  {
    hide Pow, Tens, Below, RoundDiv;
    var q, h := e0 - p, Pow(10, p - 1);
    PowNext(10, p - 1);
    PowPositive(10, p - 1);
    CompareFiner(u, q + 1, p - 1, 2);
    RoundBelow(u * Below(q + 1), Tens(q + 1), 2 * h, NearestAway);
    AwayAlmost(u, q, AwayAt(u, q), h);
    AwayReaches(u * Below(q + 1), Tens(q + 1), h);
  }

  /** 10^p in a buffer of 18 limbs. */
  method PowerOfTen(p: nat) returns (b: Mpb)
    requires 1 <= p <= 101
    ensures fresh(b) && fresh(b.tab) && b.Valid() && b.Normal() && b.Value() == Pow(10, p)
  {
    hide Pow, Val;
    b := new Mpb(MANT_LEN_MAX);
    b.SetU64(1);
    PowOne();
    PowZero(2);
    ProductFitsLimbs(1, 1, p, (7 * p + 2) / 3, MANT_LEN_MAX - (p / 32 + 1));
    FitsWithRoom(1 * Pow(5, p), MANT_LEN_MAX, p / 32 + 1);
    ProductPositive(1, 5, p);
    var shift, k := MulPow(b, 5, 1, p, false, 0);
    TopLimb(b.tab[..b.len]);
    LenBound(b.tab[..b.len], MANT_LEN_MAX - (p / 32 + 1));
    b.ShrRound(shift, Truncate);
    TenIsFiveTwo(p);
  }

  /** One conversion for the exponent d. */
  method AwayDigits(tmp: Mpb, m: nat, e: int, p: nat, d: int, ghost a: nat)
    requires tmp.tab.Length == DBIGNUM_LEN_MAX && 1 <= p <= 101
    requires Finite(a) && Splits(a, m, e) && 0 <= d - 1 - MulLog2Radix(e - 1) <= 1
    modifies tmp, tmp.tab
    ensures tmp.Valid() && tmp.Normal() && tmp.Value() == AwayAt(Units(a), d - p)
  {
    hide Pow, Units, Numerator, Denominator, RoundDiv, RoundFits, Encode, Val, Tens, Below;
    FixedFits(m, e, p, d);
    MulPowRound(tmp, m, e - 53, 5, 1, p - d, NearestAway);
    PrintFraction(a, m, e, d - p, NearestAway);
  }

  /** A finite positive double with p significant digits: round(x * 10^(p - e10)), ties away from zero, of exactly
      p digits; the exponent is moved at most once, and no number leaves its buffer. */
  method FixedDigits(a: nat, p: nat) returns (tmp: Mpb, e10: int)
    requires Finite(a) && 1 <= p <= 101
    ensures tmp.Valid() && tmp.Value() == AwayAt(Units(a), e10 - p)
    ensures Pow(10, p - 1) <= tmp.Value() < Pow(10, p)
  {
    hide Pow, Units, Splits, GoodExponent, AwayAt, Val;
    var m, e := Split(a);
    ExponentIsGood(a, m, e);
    var mantMax := PowerOfTen(p);
    tmp := new Mpb(DBIGNUM_LEN_MAX);
    var e0 := 1 + MulLog2Radix(e - 1);
    e10 := e0;
    AwayEnough(Units(a), e0, p);
    AwayDigits(tmp, m, e, p, e10, a);
    var c := MpbCmp(tmp, mantMax);
    while c >= 0
      invariant fresh(tmp) && fresh(tmp.tab) && tmp.tab.Length == DBIGNUM_LEN_MAX && tmp.tab != mantMax.tab && tmp != mantMax
      invariant mantMax.Valid() && mantMax.Normal() && mantMax.Value() == Pow(10, p)
      invariant tmp.Valid() && tmp.Normal() && tmp.Value() == AwayAt(Units(a), e10 - p)
      invariant c < 0 <==> tmp.Value() < Pow(10, p)
      invariant e10 == e0 || (e10 == e0 + 1 && c < 0)
      invariant Pow(10, p - 1) <= tmp.Value()
      decreases e0 + 1 - e10
    {
      AwayOneLess(Units(a), e0, p);
      e10 := e10 + 1;
      AwayDigits(tmp, m, e, p, e10, a);
      c := MpbCmp(tmp, mantMax);
    }
  }
}
