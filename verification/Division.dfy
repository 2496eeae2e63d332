/** Division by a normalised limb with a precomputed inverse, in wrapping 32- and 64-bit arithmetic. */
module Division {
  import opened Bytes
  import opened Powers
  import opened Limbs

  const DLIMB: nat := 0x1_0000_0000_0000_0000

  /** The inverse of a limb with its top bit set: the 64-bit number of all ones below -d, divided by d. */
  function Udiv1normInit(d: u32): (inv: u32)
    requires d >= 0x8000_0000
  {
    var a1 := (LIMB - d - 1) % LIMB;
    var a0 := LIMB - 1;
    InverseFits(d);
    (a1 * LIMB + a0) / d
  }

  lemma InverseFits(d: int)
    requires 0x8000_0000 <= d < LIMB
    ensures 0 <= (LIMB - d - 1) < LIMB
    ensures ((LIMB - d - 1) * LIMB + (LIMB - 1)) / d < LIMB
  {
    QuotientFits(LIMB - d - 1, LIMB - 1, d);
  }

  /** The estimate of the quotient, in the source's wrapping arithmetic: n1m is 0 or all ones. */
  function Estimate(a1: u32, a0: u32, d: u32, dInv: u32): (q: u32) {
    var n1m: u32 := if a0 >= 0x8000_0000 then LIMB - 1 else 0;
    var masked: u32 := if n1m == 0 then 0 else d;
    var nAdj: u32 := (a0 + masked) % LIMB;
    var a: nat := (dInv * ((a1 - n1m) % LIMB) + nAdj) % DLIMB;
    (a / LIMB + a1) % LIMB
  }

  /** The correction of the quotient and the remainder, in wrapping 64-bit arithmetic. */
  function Correct(n: nat, q: u32, d: u32): (r: (u32, u32)) {
    var b: nat := (n - q * d - d) % DLIMB;
    var ah: u32 := b / LIMB;
    ((q + 1 + ah) % LIMB, (b % LIMB + if ah == 0 then 0 else d) % LIMB)
  }

  /** The quotient and the remainder of a1 * LIMB + a0 by d. */
  function Udiv1norm(a1: u32, a0: u32, d: u32, dInv: u32): (r: (u32, u32))
  {
    Correct(a1 * LIMB + a0, Estimate(a1, a0, d, dInv), d)
  }

  lemma Distribute(a: int, b: int, c: int, k: int)
    ensures (a + b + c) * k == a * k + b * k + c * k
    ensures (a - b - c) * k == a * k - b * k - c * k
    ensures k * (a - b - c) == a * k - b * k - c * k
  {
  }

  /** The error of the estimate, scaled by one limb. */
  lemma EstimateIdentity(B: int, d: int, m: int, e: int, s: int, a: int, t: int, u: int)
    requires (m + B) * d == B * B - e
    requires m * s + a == B * t + u
    ensures B * (s * B - (s + t) * d) == e * s - a * d + u * d
  {
    var md, ms := m * d, m * s;
    assert (m + B) * d == md + B * d;
    assert md == B * B - e - B * d;
    var ssB, ssd, es := (B * B) * s, (B * d) * s, e * s;
    assert md * s == ssB - es - ssd by { Distribute(B * B, e, B * d, s); }
    assert ms * d == md * s;
    var Bt := B * t;
    assert Bt == ms + a - u;
    assert Bt * d == ms * d + a * d - u * d by { Distribute(ms, a, -u, d); }
    assert B * (t * d) == Bt * d;
    assert B * (s * B) == ssB && B * (s * d) == ssd;
    assert (s + t) * d == s * d + t * d;
    assert B * (s * B - (s * d + t * d)) == B * (s * B) - B * (s * d) - B * (t * d) by {
      Distribute(s * B, s * d, t * d, B);
    }
  }

  /** The bounds on the scaled error. */
  lemma ErrorBounds(B: int, d: int, e: int, s: int, x: int, u: int, c: int)
    requires c == B - d && 0 < c && 0 < d && 1 <= e <= d && 0 <= s <= d && 0 <= x <= d && 0 <= u < B
    ensures 0 <= c * x + e * s + d * u < B * (2 * d)
  {
    MulMonotone(0, x, c);
    MulMonotone(0, s, e);
    MulMonotone(0, u, d);
    MulMonotone(x, d, c);
    MulMonotone(s, d, e);
    MulMonotone(e, d, d);
    MulStrictlyMonotone(u, B, d);
    var cd, dd, Bd := c * d, d * d, B * d;
    assert cd + dd == Bd by { Distribute(c, d, 0, d); }
    assert B * (2 * d) == 2 * Bd;
    assert d * B == Bd;
  }

  lemma ScaledBounds(B: int, y: int, z: int)
    requires B > 0 && 0 <= B * y < B * z
    ensures 0 <= y < z
  {
    if y < 0 {
      MulMonotone(y, -1, B);
    }
    if y >= z {
      MulMonotone(z, y, B);
    }
  }

  /** The estimate a1 + t is the quotient or one less, whatever the top bit n1 of the low limb is. */
  lemma EstimateClose(d: int, m: int, e: int, a1: int, a0: int, n1: int, t: int, u: int)
    requires LIMB <= 2 * d && d < LIMB
    requires (m + LIMB) * d == LIMB * LIMB - e && 1 <= e <= d
    requires 0 <= a1 < d && 0 <= a0 < LIMB
    requires n1 == if 2 * a0 >= LIMB then 1 else 0
    requires m * (a1 + n1) + a0 + n1 * (d - LIMB) == LIMB * t + u && 0 <= u < LIMB
    ensures 0 <= a1 * LIMB + a0 - (a1 + t) * d < 2 * d
  {
    var B := LIMB;
    var c, s := B - d, a1 + n1;
    var x := a0 - n1 * c;
    var y := a1 * B + a0 - (a1 + t) * d;
    EstimateIdentity(B, d, m, e, s, x, t, u);
    ErrorBounds(B, d, e, s, x, u, c);
    assert B * y == c * x + e * s + d * u by {
      assert y == (s * B - (s + t) * d) + x by {
        if n1 == 1 {
          assert s * B == a1 * B + B && (s + t) * d == (a1 + t) * d + d;
        }
      }
      assert B * y == B * (s * B - (s + t) * d) + B * x by { Distribute(s * B - (s + t) * d, x, 0, B); }
      assert c * x == B * x - d * x by { Distribute(B, d, 0, x); }
    }
    ScaledBounds(B, y, 2 * d);
  }

  /** What the precomputed inverse is: (inv + LIMB) * d falls short of LIMB^2 by at most d. */
  lemma InverseMeaning(d: u32)
    requires d >= 0x8000_0000
    ensures var e := LIMB * LIMB - (Udiv1normInit(d) + LIMB) * d; 1 <= e <= d
  {
    var n := (LIMB - d - 1) * LIMB + (LIMB - 1);
    var m := Udiv1normInit(d);
    assert m == n / d;
    DivMod(n, d);
    assert (m + LIMB) * d == m * d + LIMB * d;
    assert n == LIMB * LIMB - d * LIMB - 1 by { Distribute(LIMB, d, 1, LIMB); }
  }

  /** No intermediate value of the estimate wraps. */
  lemma EstimateFits(m: int, s: int, x: int, d: int)
    requires 0 <= m < LIMB && 0 <= s < LIMB && 0 <= x < LIMB
    ensures 0 <= m * s + x < DLIMB
  {
    MulMonotone(m, LIMB - 1, s);
    MulMonotone(0, m, s);
    assert (LIMB - 1) * s == LIMB * s - s;
  }

  lemma Wraps(x: int)
    ensures 0 <= x < LIMB ==> x % DLIMB == x && x / LIMB == 0 && x % LIMB == x
    ensures x < 0 <= x + LIMB ==>
      x % DLIMB == x + DLIMB && (x + DLIMB) / LIMB == LIMB - 1 && (x + DLIMB) % LIMB == x + LIMB
  {
  }

  /** From an estimate that is the quotient or one less, the correction gives the quotient and the remainder. */
  lemma CorrectIsExact(n: nat, q: u32, d: u32)
    requires 0 < d && n < d * LIMB && 0 <= n - q * d < 2 * d
    ensures Correct(n, q, d).0 == n / d && Correct(n, q, d).1 == n % d
  {
    var p := q * d;
    var x := n - p - d;
    assert (q + 1) * d == p + d;
    Wraps(x);
    if x >= 0 {
      DivIs(n, d, q + 1, x);
      if q + 1 >= LIMB {
        MulMonotone(LIMB, q + 1, d);
      }
    } else {
      DivIs(n, d, q, x + d);
    }
    assert Correct(n, q, d) == CorrectFrom(x, q, d);
    CorrectCases(x, q, d);
  }

  /** The correction, given the difference n - q * d - d. */
  function CorrectFrom(x: int, q: u32, d: u32): (r: (u32, u32)) {
    var b: nat := x % DLIMB;
    var ah: u32 := b / LIMB;
    ((q + 1 + ah) % LIMB, (b % LIMB + if ah == 0 then 0 else d) % LIMB)
  }

  lemma CorrectCases(x: int, q: u32, d: u32)
    requires 0 <= x + d && x < d
    ensures x >= 0 ==> CorrectFrom(x, q, d) == ((q + 1) % LIMB, x)
    ensures x < 0 ==> CorrectFrom(x, q, d) == (q, x + d)
  {
    Wraps(x);
  }

  lemma DividendFits(a1: int, a0: int, d: int)
    requires 0 <= a1 < d && 0 <= a0 < LIMB
    ensures 0 <= a1 * LIMB + a0 < d * LIMB
  {
    MulMonotone(a1 + 1, d, LIMB);
  }

  /** The division by multiplication is exact for every dividend whose quotient fits in a limb. */
  lemma Udiv1normExact(a1: u32, a0: u32, d: u32)
    requires d >= 0x8000_0000 && a1 < d
    ensures var n := a1 * LIMB + a0;
      Udiv1norm(a1, a0, d, Udiv1normInit(d)).0 == n / d && Udiv1norm(a1, a0, d, Udiv1normInit(d)).1 == n % d
  {
    var m := Udiv1normInit(d);
    var n1 := if a0 >= 0x8000_0000 then 1 else 0;
    var nAdj := a0 + n1 * (d - LIMB);
    var T := m * (a1 + n1) + nAdj;
    var t, u := T / LIMB, T % LIMB;
    var n := a1 * LIMB + a0;
    InverseMeaning(d);
    var e := LIMB * LIMB - (m + LIMB) * d;
    hide Udiv1normInit;
    EstimateFits(m, a1 + n1, nAdj, d);
    DivMod(T, LIMB);
    EstimateClose(d, m, e, a1, a0, n1, t, u);
    DividendFits(a1, a0, d);
    var q1 := a1 + t;
    assert 0 <= q1 < LIMB by {
      if q1 >= LIMB {
        MulMonotone(LIMB, q1, d);
      }
    }
    EstimateIs(a1, a0, d, m, n1, nAdj, T, t, q1);
    CorrectIsExact(n, q1, d);
  }

  /** The masked operands: the top bit of the low limb is carried into the high limb. */
  lemma MaskedOperands(a1: u32, a0: u32, d: u32)
    requires d >= 0x8000_0000 && a1 < d
    ensures var n1 := if a0 >= 0x8000_0000 then 1 else 0; var n1m := if a0 >= 0x8000_0000 then LIMB - 1 else 0;
      && (a1 - n1m) % LIMB == a1 + n1
      && (a0 + if n1m == 0 then 0 else d) % LIMB == a0 + n1 * (d - LIMB)
  {
  }

  lemma SmallWraps(T: int, a1: int)
    requires 0 <= T < DLIMB && 0 <= a1 + T / LIMB < LIMB
    ensures (T % DLIMB / LIMB + a1) % LIMB == a1 + T / LIMB
  {
  }

  lemma EstimateIs(a1: u32, a0: u32, d: u32, m: u32, n1: int, nAdj: int, T: int, t: int, q1: int)
    requires d >= 0x8000_0000 && a1 < d && n1 == (if a0 >= 0x8000_0000 then 1 else 0)
    requires nAdj == a0 + n1 * (d - LIMB) && T == m * (a1 + n1) + nAdj && 0 <= T < DLIMB
    requires t == T / LIMB && q1 == a1 + t && 0 <= q1 < LIMB
    ensures Estimate(a1, a0, d, m) == q1
  {
    hide Estimate;
    MaskedOperands(a1, a0, d);
    SmallWraps(T, a1);
    EstimateFrom(a1, a0, d, m, a1 + n1, nAdj);
  }

  lemma EstimateFrom(a1: u32, a0: u32, d: u32, m: u32, s: int, adj: int)
    requires var n1m := if a0 >= 0x8000_0000 then LIMB - 1 else 0;
      s == (a1 - n1m) % LIMB && adj == (a0 + if n1m == 0 then 0 else d) % LIMB
    ensures Estimate(a1, a0, d, m) == ((m * s + adj) % DLIMB / LIMB + a1) % LIMB
  {
  }

  /** The quotient limbs from the most significant one down. */
  method DivideLimbs(tab: array<u32>, n: nat, b: u32, r0: u32, bInv: u32) returns (r: u32)
    requires n <= tab.Length && b >= 0x8000_0000 && bInv == Udiv1normInit(b) && r0 < b
    modifies tab
    ensures r0 * Pow(LIMB, n) + Val(old(tab[..n])) == Val(tab[..n]) * b + r && r < b
    ensures tab[n..] == old(tab[n..])
  {
    hide Pow, Udiv1norm, Udiv1normInit;
    r := r0;
    var i := n;
    ghost var was := tab[..];
    assert was[n..n] == tab[..][n..n] == [];
    PowZero(LIMB);
    while i > 0
      invariant 0 <= i <= n && r < b
      invariant r0 * Pow(LIMB, n - i) + Val(was[i..n]) == Val(tab[..][i..n]) * b + r
      invariant tab[..i] == was[..i] && tab[n..] == was[n..]
    {
      i := i - 1;
      ghost var rest, t := tab[..][i + 1..n], r * LIMB + tab[i];
      Udiv1normExact(r, tab[i], b);
      DivMod(t, b);
      PowNext(LIMB, n - i - 1);
      DivStep(r0, Pow(LIMB, n - i - 1), Val(was[i + 1..n]), was[i], Val(rest), r, b, t / b, t % b);
      var qr := Udiv1norm(r, tab[i], b, bInv);
      tab[i] := qr.0;
      r := qr.1;
      assert tab[..][i + 1..n] == rest;
      ValHead(was, i, n);
      ValHead(tab[..], i, n);
    }
    assert was[0..n] == was[..n] && tab[..][0..n] == tab[..n];
  }

  /** In-place division by a normalised limb: `b` is the divisor `d` shifted left by `shift`, bInv the inverse
      of `b`. The result is that of the schoolbook division by `d`. */
  method MpDiv1norm(tab: array<u32>, n: nat, b: u32, r0: u32, bInv: u32, shift: nat, ghost d: nat) returns (r: u32)
    requires n <= tab.Length && 0 <= shift < 32
    requires b >= 0x8000_0000 && bInv == Udiv1normInit(b) && b == d * Pow(2, shift)
    requires r0 < d
    modifies tab
    ensures r0 * Pow(LIMB, n) + Val(old(tab[..n])) == Val(tab[..n]) * d + r && r < d
    ensures tab[n..] == old(tab[n..])
  {
    hide Pow, Udiv1norm, Udiv1normInit;
    PowPositive(2, shift);
    ghost var s := Pow(2, shift);
    ghost var was, p := Val(tab[..n]), Pow(LIMB, n);
    r := r0;
    ghost var high: nat := r0;
    if shift != 0 {
      ShiftFactors(shift);
      var carry := MpShl(tab, n, shift, 0);
      ShiftedHighBelow(r0, carry, d, s);
      ShiftedDividend(r0, was, carry, Val(tab[..n]), s, p);
      r := (r0 * Pow(2, shift)) % LIMB + carry;
    } else {
      PowZero(2);
    }
    assert r * p + Val(tab[..n]) == (r0 * p + was) * s;
    r := DivideLimbs(tab, n, b, r, bInv);
    Unscale(r0 * p + was, Val(tab[..n]), d, s, r);
    r := r / Pow(2, shift);
  }

  lemma ShiftedHighBelow(r0: int, carry: int, d: int, s: int)
    requires 0 <= r0 < d && 0 <= carry < s && 0 < d * s < LIMB
    ensures (r0 * s) % LIMB + carry == r0 * s + carry && r0 * s + carry < d * s
  {
    MulMonotone(r0 + 1, d, s);
    assert (r0 + 1) * s == r0 * s + s;
    MulMonotone(0, r0, s);
    DivIs(r0 * s, LIMB, 0, r0 * s);
  }

  lemma ShiftedDividend(r0: int, was: int, carry: int, low: int, s: int, p: int)
    requires low + carry * p == was * s
    ensures (r0 * s + carry) * p + low == (r0 * p + was) * s
  {
    assert (r0 * s + carry) * p == (r0 * p) * s + carry * p;
    assert (r0 * p + was) * s == (r0 * p) * s + was * s;
  }

  /** Dividing both the dividend and the divisor by s. */
  lemma Unscale(n: int, q: int, d: int, s: int, r: int)
    requires s > 0 && n * s == q * (d * s) + r && 0 <= r < d * s
    ensures n == q * d + r / s && 0 <= r / s < d
  {
    DivMod(r, s);
    assert r == (n - q * d) * s by { assert (n - q * d) * s == n * s - q * (d * s); }
    DivIs(r, s, n - q * d, 0);
    if r / s >= d {
      MulMonotone(d, r / s, s);
    }
    if r / s < 0 {
      MulMonotone(r / s, -1, s);
    }
  }
}
