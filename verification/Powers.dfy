/** Powers of natural numbers. */
module Powers {

  function Pow(b: nat, n: nat): (r: nat)
    decreases n
  {
    if n == 0 then 1 else b * Pow(b, n - 1)
  }

  lemma {:induction false} PowPositive(b: nat, n: nat)
    requires b > 0
    ensures Pow(b, n) > 0
    decreases n
  {
    if n > 0 {
      PowPositive(b, n - 1);
      MulPositive(b, Pow(b, n - 1));
    }
  }

  lemma MulPositive(a: int, b: int)
    requires a > 0 && b > 0
    ensures a * b > 0
  {
  }

  lemma {:induction false} PowAdd(b: nat, m: nat, n: nat)
    ensures Pow(b, m + n) == Pow(b, m) * Pow(b, n)
    decreases m
  {
    if m > 0 {
      PowAdd(b, m - 1, n);
      MulAssoc(b, Pow(b, m - 1), Pow(b, n));
    }
  }

  lemma MulAssoc(a: int, b: int, c: int)
    ensures (a * b) * c == a * (b * c)
  {
  }

  lemma {:induction false} PowOfProduct(a: nat, b: nat, n: nat)
    ensures Pow(a * b, n) == Pow(a, n) * Pow(b, n)
    decreases n
  {
    if n > 0 {
      PowOfProduct(a, b, n - 1);
      var x, y := Pow(a, n - 1), Pow(b, n - 1);
      calc {
        (a * b) * (x * y);
        { MulAssoc(a, b, x * y); MulAssoc(b, x, y); MulAssoc(x, b, y); }
        a * (x * (b * y));
        { MulAssoc(a, x, b * y); }
        (a * x) * (b * y);
      }
    }
  }

  lemma {:induction false} PowOfPow(b: nat, m: nat, n: nat)
    ensures Pow(b, m * n) == Pow(Pow(b, m), n)
    decreases n
  {
    if n > 0 {
      PowOfPow(b, m, n - 1);
      assert m * n == m + m * (n - 1);
      PowAdd(b, m, m * (n - 1));
    }
  }

  lemma {:induction false} PowMonotone(b: nat, m: nat, n: nat)
    requires b > 0 && m <= n
    ensures Pow(b, m) <= Pow(b, n)
    decreases n - m
  {
    if m < n {
      PowMonotone(b, m, n - 1);
      PowPositive(b, n - 1);
      MulMonotone(1, b, Pow(b, n - 1));
    }
  }

  lemma MulMonotone(x: int, y: int, k: int)
    requires x <= y && k >= 0
    ensures x * k <= y * k && k * x <= k * y
  {
  }

  lemma MulStrictlyMonotone(x: int, y: int, k: int)
    requires x < y && k > 0
    ensures x * k < y * k && k * x < k * y
  {
  }

  lemma ZeroMultiple(k: int, d: int)
    requires d > 0 && -d < k * d < d
    ensures k == 0
  {
    if k >= 1 {
      MulMonotone(1, k, d);
    } else if k <= -1 {
      MulMonotone(k, -1, d);
    }
  }

  /** A division is determined by its quotient and remainder. */
  lemma DivIs(n: int, d: int, q: int, r: int)
    requires d > 0 && n == q * d + r && 0 <= r < d
    ensures n / d == q && n % d == r
  {
    var q1, r1 := n / d, n % d;
    assert n == q1 * d + r1 && 0 <= r1 < d;
    assert (q - q1) * d == q * d - q1 * d;
    ZeroMultiple(q - q1, d);
  }

  lemma DivMod(n: int, d: int)
    requires d > 0
    ensures n == (n / d) * d + n % d && 0 <= n % d < d
  {
  }

  /** Dividing twice is dividing by the product. */
  lemma DivDiv(n: nat, a: nat, b: nat)
    requires a > 0 && b > 0
    ensures a * b > 0 && (n / a) / b == n / (a * b)
    ensures n % (a * b) == (n / a % b) * a + n % a
  {
    MulPositive(a, b);
    DivMod(n, a);
    DivMod(n / a, b);
    var q, r1, r2 := n / a / b, n % a, n / a % b;
    assert n == (q * b + r2) * a + r1;
    assert n == q * (a * b) + (r2 * a + r1) by {
      assert (q * b + r2) * a == q * (a * b) + r2 * a;
    }
    MulMonotone(r2, b - 1, a);
    assert (b - 1) * a == a * b - a;
    MulMonotone(0, r2, a);
    DivIs(n, a * b, q, r2 * a + r1);
  }

  lemma {:induction false} PowBaseMonotone(a: nat, b: nat, n: nat)
    requires a <= b
    ensures Pow(a, n) <= Pow(b, n)
    decreases n
  {
    if n > 0 {
      PowBaseMonotone(a, b, n - 1);
      MulMonotone(a, b, Pow(a, n - 1));
      MulMonotone(Pow(a, n - 1), Pow(b, n - 1), b);
    }
  }

  /** The power of a sum of exponents, from the powers. */
  lemma PowSum(b: nat, m: nat, n: nat, v: nat, w: nat)
    requires Pow(b, m) == v && Pow(b, n) == w
    ensures Pow(b, m + n) == v * w
  {
    PowAdd(b, m, n);
  }

  const LIMB: nat := 0x1_0000_0000

  lemma Pow2Constants()
    ensures Pow(2, 31) == 0x8000_0000 && Pow(2, 32) == LIMB
  {
    assert Pow(2, 8) == 256;
    PowAdd(2, 8, 8);
    PowAdd(2, 16, 16);
    PowAdd(2, 16, 15);
    PowAdd(2, 8, 7);
    assert Pow(2, 7) == 128;
    assert Pow(2, 16) == 65536;
    assert Pow(2, 15) == 32768;
  }

  lemma LimbPow(n: nat)
    ensures Pow(LIMB, n) == Pow(2, 32 * n)
  {
    Pow2Constants();
    PowOfPow(2, 32, n);
  }
}
