/** Decimals k * 10^q among doubles: where powers of ten and of two lie, and when a decimal is read back. */
module Decimals {
  import opened Powers
  import opened Limbs
  import opened Rounding
  import opened Doubles
  import opened RadixPower

  // ---- the estimate of the decimal exponent ----

  /** 0x4d104d / 2^24 approximates the decimal logarithm of two. */
  const MUL_LOG2_10: int := 0x4d104d

  /** The estimate of floor(a * log10(2)), with the arithmetic shift of the source. */
  function MulLog2Radix(a: int): (r: int) {
    (a * MUL_LOG2_10) / 0x100_0000
  }

  /** 205/681 and 146/485 are neighbours: no fraction with a denominator below 681 + 485 lies between them. */
  lemma Neighbours(p: int, b: int)
    requires 0 <= b < 1166
    ensures 485 * p < 146 * b ==> 681 * p <= 205 * b
    ensures 681 * p > 205 * b ==> 485 * p >= 146 * b
  {
  }

  lemma PowerOfTwo485()
    ensures Pow(2, 485) == 0x20000000000000000000000000000000000000000000000000000000000000000000000000000000000000000000000000000000000000000000000000
  {
    assert Pow(2, 5) == 32;
    PowSum(2, 5, 5, 32, 32);
    PowSum(2, 10, 5, 1024, 32);
    PowSum(2, 15, 15, 32768, 32768);
    PowSum(2, 30, 30, 0x40000000, 0x40000000);
    PowSum(2, 60, 60, 0x1000000000000000, 0x1000000000000000);
    PowSum(2, 120, 120, 0x1000000000000000000000000000000, 0x1000000000000000000000000000000);
    PowSum(2, 240, 240, 0x1000000000000000000000000000000000000000000000000000000000000, 0x1000000000000000000000000000000000000000000000000000000000000);
    PowSum(2, 480, 5, 0x1000000000000000000000000000000000000000000000000000000000000000000000000000000000000000000000000000000000000000000000000, 32);
  }

  lemma PowerOfTen146()
    ensures Pow(10, 146) == 0x200888489af9569930925255368b25e27749a2c3a5d54a31d90d45629b2e29348d5be73f72bf489e71df64000000000000000000000000000000000000
  {
    assert Pow(10, 5) == 100000;
    assert Pow(10, 4) == 10000;
    PowSum(10, 5, 4, 100000, 10000);
    PowSum(10, 9, 9, 0x3b9aca00, 0x3b9aca00);
    PowSum(10, 18, 18, 0xde0b6b3a7640000, 0xde0b6b3a7640000);
    PowSum(10, 36, 36, 0xc097ce7bc90715b34b9f1000000000, 0xc097ce7bc90715b34b9f1000000000);
    PowSum(10, 72, 72, 0x90e40fbeea1d3a4abc8955e946fe31cdcf66f634e1000000000000000000, 0x90e40fbeea1d3a4abc8955e946fe31cdcf66f634e1000000000000000000);
    assert Pow(10, 2) == 100;
    PowSum(10, 144, 2, 0x52015ce2d469d373af8b10364e3104d31ce577b76b17c82db0c5d0589780697c4b28b664fccaf7582dc1000000000000000000000000000000000000, 100);
  }

  lemma PowerOfTwo681()
    ensures Pow(2, 681) == 0x200000000000000000000000000000000000000000000000000000000000000000000000000000000000000000000000000000000000000000000000000000000000000000000000000000000000000000000000000
  {
    assert Pow(2, 5) == 32;
    PowSum(2, 5, 5, 32, 32);
    PowSum(2, 10, 10, 1024, 1024);
    PowSum(2, 20, 20, 0x100000, 0x100000);
    PowSum(2, 40, 40, 0x10000000000, 0x10000000000);
    PowSum(2, 80, 5, 0x100000000000000000000, 32);
    PowSum(2, 85, 85, 0x2000000000000000000000, 0x2000000000000000000000);
    PowSum(2, 170, 170, 0x4000000000000000000000000000000000000000000, 0x4000000000000000000000000000000000000000000);
    PowSum(2, 340, 340, 0x10000000000000000000000000000000000000000000000000000000000000000000000000000000000000, 0x10000000000000000000000000000000000000000000000000000000000000000000000000000000000000);
    assert Pow(2, 1) == 2;
    PowSum(2, 680, 1, 0x100000000000000000000000000000000000000000000000000000000000000000000000000000000000000000000000000000000000000000000000000000000000000000000000000000000000000000000000000, 2);
  }

  lemma PowerOfTen205()
    ensures Pow(10, 205) == 0x1fe52048590672d9cfcce08e2eb42a4e25afb3ab348b07e4c3e1939d25d2faca3fb483eaea6e7d3fce6e611f0dea1a4be0e63d2d50d77e3c8da9292a000000000000000000000000000000000000000000000000000
  {
    assert Pow(10, 5) == 100000;
    PowSum(10, 5, 5, 100000, 100000);
    PowSum(10, 10, 10, 0x2540be400, 0x2540be400);
    PowSum(10, 20, 5, 0x56bc75e2d63100000, 100000);
    PowSum(10, 25, 25, 0x84595161401484a000000, 0x84595161401484a000000);
    PowSum(10, 50, 50, 0x446c3b15f9926687d2c40534fdb564000000000000, 0x446c3b15f9926687d2c40534fdb564000000000000);
    PowSum(10, 100, 100, 0x1249ad2594c37ceb0b2784c4ce0bf38ace408e211a7caab24308a82e8f10000000000000000000000000, 0x1249ad2594c37ceb0b2784c4ce0bf38ace408e211a7caab24308a82e8f10000000000000000000000000);
    PowSum(10, 200, 5, 0x14e718d7d7625a2d96851f15802cac3b68141ee99b444273068ec13df249391fddba60c684d4546089e87de89b43a6bcd3f16938288753cb9b2e100000000000000000000000000000000000000000000000000, 100000);
  }


  /** 2^485 is below 10^146 and 10^205 is below 2^681. */
  lemma LogBounds()
    ensures Pow(2, 485) <= Pow(10, 146) && Pow(10, 205) <= Pow(2, 681)
  {
    hide Pow;
    PowerOfTwo485();
    PowerOfTen146();
    PowerOfTwo681();
    PowerOfTen205();
  }

  lemma {:induction false} PowBaseStrict(a: nat, b: nat, n: nat)
    requires a < b && n > 0
    ensures Pow(a, n) < Pow(b, n)
    decreases n
  {
    if n == 1 {
      PowZero(a);
      PowZero(b);
      PowNext(a, 0);
      PowNext(b, 0);
    } else {
      PowBaseStrict(a, b, n - 1);
      MulMonotone(a, b, Pow(a, n - 1));
      MulStrictlyMonotone(Pow(a, n - 1), Pow(b, n - 1), b);
    }
  }

  lemma RootCompare(x: nat, y: nat, q: nat)
    requires q > 0 && Pow(x, q) <= Pow(y, q)
    ensures x <= y
  {
    hide Pow;
    if x > y {
      PowBaseStrict(y, x, q);
    }
  }

  lemma Commute(a: int, b: int)
    ensures a * b == b * a
  {
  }

  /** Powers of powers, with the product of the exponents in either order. */
  lemma PowSwap(x: nat, m: nat, n: nat)
    ensures Pow(x, m * n) == Pow(Pow(x, m), n) == Pow(Pow(x, n), m)
  {
    hide Pow;
    PowOfPow(x, m, n);
    PowOfPow(x, n, m);
    Commute(m, n);
  }

  /** x^f <= y^a follows from x^p <= y^q when f / a is at most p / q. */
  lemma CompareByRatio(x: nat, f: nat, y: nat, a: nat, p: nat, q: nat)
    requires x > 0 && q > 0 && q * f <= p * a && Pow(x, p) <= Pow(y, q)
    ensures Pow(x, f) <= Pow(y, a)
  {
    hide Pow;
    PowMonotone(x, q * f, p * a);
    PowSwap(x, q, f);
    PowSwap(x, p, a);
    PowSwap(y, q, a);
    PowBaseMonotone(Pow(x, p), Pow(y, q), a);
    RootCompare(Pow(x, f), Pow(y, a), q);
  }

  /** The same when x is the smaller base: the exponents are compared the other way round. */
  lemma CompareByRatioUp(x: nat, a: nat, y: nat, g: nat, p: nat, q: nat)
    requires y > 0 && q > 0 && p * a <= q * g && Pow(x, q) <= Pow(y, p)
    ensures Pow(x, a) <= Pow(y, g)
  {
    hide Pow;
    PowMonotone(y, p * a, q * g);
    PowSwap(y, q, g);
    PowSwap(y, p, a);
    PowSwap(x, q, a);
    PowBaseMonotone(Pow(x, q), Pow(y, p), a);
    RootCompare(Pow(x, a), Pow(y, g), q);
  }

  // ---- decimals in units of 2^-1074 ----

  /** 10^q is Tens(q) / Below(q) units. */
  function Below(q: int): (r: nat)
    ensures r > 0
  {
    PowPositive(10, Max(-q, 0));
    Pow(10, Max(-q, 0))
  }

  function Tens(q: int): (r: nat)
    ensures r > 0
  {
    PowPositive(10, Max(q, 0));
    PowPositive(2, 1074);
    MulPositive(Pow(10, Max(q, 0)), Pow(2, 1074));
    Pow(10, Max(q, 0)) * Pow(2, 1074)
  }

  /** The estimate f of the exponent is exact: 10^f <= 2^a <= 10^(f + 1). */
  lemma EstimateExact(a: int)
    requires -1074 <= a <= 1023
    ensures var f := MulLog2Radix(a);
      && Tens(f) <= Pow(2, a + 1074) * Below(f)
      && Pow(2, a + 1074) * Below(f + 1) <= Tens(f + 1)
  {
    hide Pow, Tens, Below;
    var f := MulLog2Radix(a);
    LogBounds();
    if a >= 0 {
      Neighbours(f, a);
      Neighbours(f + 1, a);
      CompareByRatio(10, f, 2, a, 205, 681);
      CompareByRatioUp(2, a, 10, f + 1, 146, 485);
      PositiveExponents(f, a);
    } else {
      var b, g := -a, -f;
      Neighbours(g, b);
      Neighbours(g - 1, b);
      CompareByRatioUp(2, b, 10, g, 146, 485);
      CompareByRatio(10, g - 1, 2, b, 205, 681);
      NegativeExponents(g, b);
    }
  }

  lemma PositiveExponents(f: nat, a: nat)
    requires Pow(10, f) <= Pow(2, a) <= Pow(10, f + 1)
    ensures Tens(f) <= Pow(2, a + 1074) * Below(f)
    ensures Pow(2, a + 1074) * Below(f + 1) <= Tens(f + 1)
  {
    hide Pow;
    PowZero(10);
    PowAdd(2, a, 1074);
    MulMonotone(Pow(10, f), Pow(2, a), Pow(2, 1074));
    MulMonotone(Pow(2, a), Pow(10, f + 1), Pow(2, 1074));
  }

  lemma NegativeExponents(g: int, b: int)
    requires g >= 1 && 1 <= b <= 1074 && Pow(10, g - 1) <= Pow(2, b) <= Pow(10, g)
    ensures Tens(-g) <= Pow(2, 1074 - b) * Below(-g)
    ensures Pow(2, 1074 - b) * Below(1 - g) <= Tens(1 - g)
  {
    hide Pow;
    PowZero(10);
    PowAdd(2, 1074 - b, b);
    MulMonotone(Pow(2, b), Pow(10, g), Pow(2, 1074 - b));
    MulMonotone(Pow(10, g - 1), Pow(2, b), Pow(2, 1074 - b));
  }

  lemma TensBelow(q: int)
    ensures q >= 0 ==> Tens(q) == Pow(10, q) * Pow(2, 1074) && Below(q) == 1
    ensures q <= 0 ==> Tens(q) == Pow(2, 1074) && Below(q) == Pow(10, -q)
  {
    hide Pow;
    PowZero(10);
  }

  lemma Rearrange(a: int, b: int, c: int)
    ensures (a * b) * c == b * (a * c) && (a * b) * c == (a * c) * b && (a * b) * c == a * (b * c)
  {
  }

  /** Moving the decimal point by j digits. */
  lemma MovePoint(q: int, j: nat)
    ensures Tens(q + j) * Below(q) == Pow(10, j) * Tens(q) * Below(q + j)
  {
    hide Pow, Tens, Below;
    TensBelow(q);
    TensBelow(q + j);
    var two := Pow(2, 1074);
    if q >= 0 {
      PowAdd(10, q, j);
      Rearrange(Pow(10, q), Pow(10, j), two);
    } else if q + j >= 0 {
      PowAdd(10, q + j, -q);
      Rearrange(Pow(10, q + j), two, Pow(10, -q));
      PowSplit(q, j);
    } else {
      PowAdd(10, j, -q - j);
      Rearrange(Pow(10, j), two, Pow(10, -q - j));
      Rearrange(two, Pow(10, j), Pow(10, -q - j));
    }
  }

  lemma PowSplit(q: int, j: nat)
    requires q <= 0 <= q + j
    ensures Pow(10, q + j) * Pow(10, -q) == Pow(10, j)
  {
    PowAdd(10, q + j, -q);
  }

  lemma CancelLeft(a: int, b: int, c: int)
    requires c > 0 && a * c <= b * c
    ensures a <= b
  {
    if a > b {
      MulStrictlyMonotone(b, a, c);
    }
  }

  /** Comparing u units with k * 10^(q + j), by the finer grid 10^q. */
  lemma CompareFiner(u: nat, q: int, j: nat, k: nat)
    ensures k * Tens(q + j) <= u * Below(q + j) <==> k * Pow(10, j) * Tens(q) <= u * Below(q)
    ensures u * Below(q + j) <= k * Tens(q + j) <==> u * Below(q) <= k * Pow(10, j) * Tens(q)
  {
    hide Pow, Tens, Below;
    MovePoint(q, j);
    var t, b, t1, b1, p := Tens(q), Below(q), Tens(q + j), Below(q + j), Pow(10, j);
    CompareScaled(k * t1, u * b1, b, k * p * t, u * b, b1) by {
      assert (k * t1) * b == k * (t1 * b);
      assert k * (p * t * b1) == (k * p * t) * b1;
      assert (u * b1) * b == (u * b) * b1;
    }
  }

  lemma CompareScaled(x: int, y: int, c: int, x1: int, y1: int, c1: int)
    requires c > 0 && c1 > 0 && x * c == x1 * c1 && y * c == y1 * c1
    ensures x <= y <==> x1 <= y1
    ensures y <= x <==> y1 <= x1
  {
    if x <= y {
      MulMonotone(x, y, c);
      CancelLeft(x1, y1, c1);
    }
    if x1 <= y1 {
      MulMonotone(x1, y1, c1);
      CancelLeft(x, y, c);
    }
    if y <= x {
      MulMonotone(y, x, c);
      CancelLeft(y1, x1, c1);
    }
    if y1 <= x1 {
      MulMonotone(y1, x1, c1);
      CancelLeft(y, x, c);
    }
  }
}
