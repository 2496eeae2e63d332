/** Multiplying a big number by a power of a radix, and rounding the exact product. */
module RadixPower {
  import opened Bytes
  import opened Powers
  import opened Limbs
  import opened Division
  import opened Rounding
  import opened Bignum

  // ---- small powers ----

  const POW5_TABLE: seq<u32> := [
    0x00000005, 0x00000019, 0x0000007d, 0x00000271, 0x00000c35, 0x00003d09, 0x0001312d, 0x0005f5e1,
    0x001dcd65, 0x009502f9, 0x02e90edd, 0x0e8d4a51, 0x48c27395, 0x6bcc41e9, 0x1afd498d, 0x86f26fc1,
    0xa2bc2ec5]

  const POW5H_TABLE: seq<u32> := [0x00000001, 0x00000007, 0x00000023, 0x000000b1]

  const POW5_INV_TABLE: seq<u32> := [
    0x99999999, 0x47ae147a, 0x0624dd2f, 0xa36e2eb1, 0x4f8b588e, 0x0c6f7a0b, 0xad7f29ab, 0x5798ee23,
    0x12e0be82, 0xb7cdfd9d, 0x5fd7fe17, 0x19799812, 0xc25c2684]

  lemma PowStep(b: nat, n: nat, v: nat, w: nat)
    requires Pow(b, n) == v && w == b * v
    ensures Pow(b, n + 1) == w
  {
  }

  /** The two tables hold the powers of five. */
  lemma Pow5Table(b: nat)
    requires 1 <= b <= 17
    ensures Pow(5, b) == POW5_TABLE[b - 1] + if b >= 14 then POW5H_TABLE[b - 14] * LIMB else 0
  {
    PowZero(5);
    if b == 1 {
      PowStep(5, 0, 1, 5);
    } else {
      Pow5Table(b - 1);
      PowNext(5, b - 1);
    }
  }

  /** a^b, from the tables or by squaring and multiplying; no product exceeds 64 bits. */
  method PowUi(a: nat, b: nat) returns (r: nat)
    requires a > 0 && Pow(a, b) < DLIMB
    ensures r == Pow(a, b)
  {
    hide Pow, NBits;
    PowZero(a);
    if b == 0 {
      return 1;
    }
    if b == 1 {
      PowNext(a, 0);
      return a;
    }
    if (a == 5 || a == 10) && b <= 17 {
      Pow5Table(b);
      r := POW5_TABLE[b - 1];
      if b >= 14 {
        r := r + POW5H_TABLE[b - 14] * LIMB;
      }
      if a == 10 {
        PowOfProduct(5, 2, b);
        r := r * Pow(2, b);
      }
      return;
    }
    r := PowBySquaring(a, b);
  }

  /** The bits of b above the lowest i. */
  function Shr(b: nat, i: nat): (r: nat)
  {
    PowPositive(2, i);
    b / Pow(2, i)
  }

  lemma ShrStep(b: nat, i: nat)
    ensures Shr(b, i + 1) == Shr(b, i) / 2 && Shr(b, i) <= b
  {
    hide Pow;
    PowPositive(2, i);
    PowNext(2, i);
    DivDiv(b, Pow(2, i), 2);
    DivMod(b, Pow(2, i));
    MulMonotone(1, Pow(2, i), b / Pow(2, i));
  }

  lemma ShrEnds(b: nat)
    requires b > 0
    ensures NBits(b) > 0 && Shr(b, NBits(b) - 1) == 1 && Shr(b, 0) == b
  {
    hide Pow, NBits;
    NBitsMeaning(b);
    var p := Pow(2, NBits(b) - 1);
    PowPositive(2, NBits(b) - 1);
    PowNext(2, NBits(b) - 1);
    DivIs(b, p, 1, b - p);
    PowZero(2);
  }

  /** Squaring and multiplying by the lowest bit doubles the exponent and adds the bit. */
  lemma SquareStep(a: nat, b: nat, h: nat, k: nat)
    requires a > 0 && k / 2 == h && k <= b
    ensures Pow(a, h) * Pow(a, h) <= Pow(a, b)
    ensures Pow(a, k) == Pow(a, h) * Pow(a, h) * if k % 2 == 1 then a else 1
    ensures Pow(a, k) <= Pow(a, b)
  {
    hide Pow;
    PowAdd(a, h, h);
    PowNext(a, 2 * h);
    PowMonotone(a, 2 * h, b);
    PowMonotone(a, k, b);
  }

  method PowBySquaring(a: nat, b: nat) returns (r: nat)
    requires a > 0 && b > 0 && Pow(a, b) < DLIMB
    ensures r == Pow(a, b)
  {
    hide Pow, NBits, Shr;
    ShrEnds(b);
    PowZero(a);
    PowNext(a, 0);
    r := a;
    var i: int := NBits(b) - 2;
    while i >= 0
      invariant i >= -1
      invariant r == Pow(a, Shr(b, i + 1))
      decreases i + 1
    {
      ShrStep(b, i);
      var k := Shr(b, i);
      SquareStep(a, b, Shr(b, i + 1), k);
      r := Fits64(r * r);
      if k % 2 == 1 {
        r := Fits64(r * a);
      }
      i := i - 1;
    }
  }

  /** A 64-bit product that does not wrap. */
  function Fits64(x: nat): (r: nat)
    requires x < DLIMB
  {
    x % DLIMB
  }

  /** How far the powers of five are shifted to set their top bit, and the shifted powers. */
  const POW5_SHIFTS: seq<nat> := [29, 27, 25, 22, 20, 18, 15, 13, 11, 8, 6, 4, 1]

  const POW5_NORMALISED: seq<u32> := [
    0xa0000000, 0xc8000000, 0xfa000000, 0x9c400000, 0xc3500000, 0xf4240000, 0x98968000, 0xbebc2000,
    0xee6b2800, 0x9502f900, 0xba43b740, 0xe8d4a510, 0x9184e72a]

  lemma InverseEntry(d: u32, v: u32)
    requires d >= 0x8000_0000
    requires v * d <= (LIMB - d - 1) * LIMB + (LIMB - 1) < v * d + d
    ensures Udiv1normInit(d) == v
  {
    var n := (LIMB - d - 1) * LIMB + (LIMB - 1);
    DivIs(n, d, v, n - v * d);
  }

  lemma InverseTable(i: nat)
    requires i < 13
    ensures POW5_NORMALISED[i] >= 0x8000_0000 && Udiv1normInit(POW5_NORMALISED[i]) == POW5_INV_TABLE[i]
  {
    hide Udiv1normInit;
    InverseEntry(0xa0000000, 0x99999999);
    InverseEntry(0xc8000000, 0x47ae147a);
    InverseEntry(0xfa000000, 0x0624dd2f);
    InverseEntry(0x9c400000, 0xa36e2eb1);
    InverseEntry(0xc3500000, 0x4f8b588e);
    InverseEntry(0xf4240000, 0x0c6f7a0b);
    InverseEntry(0x98968000, 0xad7f29ab);
    InverseEntry(0xbebc2000, 0x5798ee23);
    InverseEntry(0xee6b2800, 0x12e0be82);
    InverseEntry(0x9502f900, 0xb7cdfd9d);
    InverseEntry(0xba43b740, 0x5fd7fe17);
    InverseEntry(0xe8d4a510, 0x19799812);
    InverseEntry(0x9184e72a, 0xc25c2684);
  }

  lemma NormalisedTable(i: nat)
    requires i < 13
    ensures POW5_NORMALISED[i] == POW5_TABLE[i] * Pow(2, POW5_SHIFTS[i])
  {
    hide Pow;
    SmallPowers();
  }

  lemma SmallPowers()
    ensures Pow(2, 1) == 2 && Pow(2, 4) == 0x10 && Pow(2, 6) == 0x40 && Pow(2, 8) == 0x100 && Pow(2, 11) == 0x800
    ensures Pow(2, 13) == 0x2000 && Pow(2, 15) == 0x8000 && Pow(2, 18) == 0x40000 && Pow(2, 20) == 0x100000
    ensures Pow(2, 22) == 0x400000 && Pow(2, 25) == 0x2000000 && Pow(2, 27) == 0x8000000 && Pow(2, 29) == 0x20000000
  {
    assert Pow(2, 1) == 2 && Pow(2, 2) == 4 && Pow(2, 3) == 8 && Pow(2, 4) == 16;
    PowAdd(2, 4, 2);
    PowAdd(2, 4, 4);
    PowAdd(2, 8, 3);
    PowAdd(2, 11, 2);
    PowAdd(2, 11, 4);
    PowAdd(2, 15, 3);
    PowAdd(2, 18, 2);
    PowAdd(2, 20, 2);
    PowAdd(2, 22, 3);
    PowAdd(2, 25, 2);
    PowAdd(2, 27, 2);
  }

  /** There is only one shift that sets the top bit of a limb without overflow. */
  lemma ShiftUnique(x: nat, s: nat, t: nat)
    requires x > 0 && 0x8000_0000 <= x * Pow(2, s) < LIMB && 0x8000_0000 <= x * Pow(2, t) < LIMB
    ensures s == t
  {
    hide Pow;
    if s < t {
      ShiftBelow(x, s, t);
    } else if t < s {
      ShiftBelow(x, t, s);
    }
  }

  lemma ShiftBelow(x: nat, s: nat, t: nat)
    requires s < t
    ensures 2 * (x * Pow(2, s)) <= x * Pow(2, t)
  {
    hide Pow;
    PowMonotone(2, s + 1, t);
    PowNext(2, s);
    MulMonotone(Pow(2, s + 1), Pow(2, t), x);
    assert x * (2 * Pow(2, s)) == 2 * (x * Pow(2, s));
  }

  /** Five to the b, shifted so that its top bit is set, and the inverse the table gives for it. */
  lemma Pow5InvTable(b: nat, shift: nat)
    requires 1 <= b <= 13
    requires 0x8000_0000 <= Pow(5, b) * Pow(2, shift) < LIMB
    ensures POW5_INV_TABLE[b - 1] == Udiv1normInit(Pow(5, b) * Pow(2, shift))
  {
    hide Pow, Udiv1normInit;
    Pow5Table(b);
    NormalisedTable(b - 1);
    InverseTable(b - 1);
    ShiftUnique(Pow(5, b), shift, POW5_SHIFTS[b - 1]);
  }

  /** The largest number of digits of each radix from 2 to 36 whose value fits in a limb. */
  const DIGITS_PER_LIMB: seq<nat> := [
    32, 20, 16, 13, 12, 11, 10, 10, 9, 9, 8, 8, 8, 8, 8, 7, 7, 7, 7, 7, 7, 7, 6, 6, 6, 6, 6, 6, 6, 6, 6, 6, 6, 6, 6]

  predicate OddRadix(r: nat) {
    3 <= r <= 35 && r % 2 == 1
  }

  lemma PowersThatFit()
    ensures Pow(3, 20) < LIMB && Pow(5, 13) < LIMB && Pow(7, 11) < LIMB && Pow(9, 10) < LIMB
    ensures Pow(11, 9) < LIMB && Pow(15, 8) < LIMB && Pow(23, 7) < LIMB && Pow(35, 6) < LIMB
  {
    assert Pow(3, 5) == 243;
    PowSum(3, 5, 5, 243, 243);
    PowSum(3, 10, 10, 59049, 59049);
    PowSum(5, 4, 4, 625, 625) by { assert Pow(5, 4) == 625; }
    PowSum(5, 8, 4, 390625, 625);
    PowSum(5, 12, 1, 244140625, 5) by { assert Pow(5, 1) == 5; }
    PowSum(7, 4, 4, 2401, 2401) by { assert Pow(7, 4) == 2401; }
    PowSum(7, 8, 3, 5764801, 343) by { assert Pow(7, 3) == 343; }
    PowSum(9, 5, 5, 59049, 59049) by { assert Pow(9, 5) == 59049; }
    PowSum(11, 4, 4, 14641, 14641) by { assert Pow(11, 4) == 14641; }
    PowSum(11, 8, 1, 214358881, 11) by { assert Pow(11, 1) == 11; }
    PowSum(15, 4, 4, 50625, 50625) by { assert Pow(15, 4) == 50625; }
    PowSum(23, 4, 3, 279841, 12167) by { assert Pow(23, 4) == 279841 && Pow(23, 3) == 12167; }
    PowSum(35, 3, 3, 42875, 42875) by { assert Pow(35, 3) == 42875; }
  }

  lemma DigitsFit(r: nat, n: nat)
    requires OddRadix(r) && n <= DIGITS_PER_LIMB[r - 2]
    ensures 0 < Pow(r, n) < LIMB
  {
    hide Pow;
    var d := DIGITS_PER_LIMB[r - 2];
    PowPositive(r, n);
    PowMonotone(r, n, d);
    PowersThatFit();
    if d == 6 {
      PowBaseMonotone(r, 35, d);
    } else if d == 7 {
      PowBaseMonotone(r, 23, d);
    } else if d == 8 {
      PowBaseMonotone(r, 15, d);
    }
  }

  /** a^b shifted left until its top bit is set, the shift, and the inverse of the shifted power. */
  method PowUiInv(a: nat, b: nat) returns (r: u32, rInv: u32, shift: nat)
    requires a > 0 && b > 0 && Pow(a, b) < LIMB
    ensures shift < 32 && r == Pow(a, b) * Pow(2, shift) && r >= 0x8000_0000 && rInv == Udiv1normInit(r)
  {
    hide Pow, Udiv1normInit, NBits;
    PowPositive(a, b);
    if a == 5 && b <= 13 {
      Pow5Table(b);
      var p := POW5_TABLE[b - 1];
      shift := Clz32(p);
      Pow5InvTable(b, shift);
      r := p * Pow(2, shift);
      rInv := POW5_INV_TABLE[b - 1];
    } else {
      var p := PowUi(a, b);
      shift := Clz32(p);
      r := p * Pow(2, shift);
      rInv := Udiv1normInit(r);
    }
  }

  // ---- multiplication by a power of the radix ----

  function Max(a: int, b: int): int {
    if a > b then a else b
  }

  function Min(a: int, b: int): int {
    if a < b then a else b
  }

  lemma SplitPower(v: nat, r: nat, n: nat, k: nat)
    requires n <= k
    ensures (v * Pow(r, n)) * Pow(r, k - n) == v * Pow(r, k)
  {
    hide Pow;
    PowAdd(r, n, k - n);
    MulAssoc(v, Pow(r, n), Pow(r, k - n));
  }

  /** a * r^f, a limb's worth of digits at a time. */
  method MulUp(a: Mpb, r: nat, f: nat)
    requires a.Valid() && a.Normal() && OddRadix(r)
    requires a.Value() * Pow(r, f) < Pow(LIMB, a.tab.Length)
    modifies a, a.tab
    ensures a.Valid() && a.Normal() && a.Value() == old(a.Value()) * Pow(r, f)
  {
    hide Pow, Val;
    var d := DIGITS_PER_LIMB[r - 2];
    var b: u32, n0: nat, k: int := 0, 0, f;
    PowZero(r);
    while k != 0
      invariant 0 <= k && (n0 == 0 || b == Pow(r, n0)) && n0 <= d
      invariant a.Valid() && a.Normal()
      invariant a.Value() * Pow(r, k) == old(a.Value()) * Pow(r, f)
      decreases k
    {
      var n := Min(k, d);
      DigitsFit(r, n);
      if n != n0 {
        b := PowUi(r, n);
        n0 := n;
      }
      PowPositive(r, k - n);
      SplitPower(a.Value(), r, n, k);
      MulMonotone(1, Pow(r, k - n), a.Value() * b);
      a.MulSmall(b);
      k := k - n;
    }
  }

  /** The remainder by a product is zero exactly when both partial remainders are. */
  lemma DivideFurther(v: nat, p: nat, q: nat)
    requires p > 0 && q > 0
    ensures p * q > 0 && v / p / q == v / (p * q)
    ensures v % (p * q) != 0 <==> v % p != 0 || v / p % q != 0
  {
    LowBits(v, p, q);
    DivDiv(v, p, q);
  }

  /** a / r^f with the lowest bit set if the division is not exact. */
  method DivDown(a: Mpb, r: nat, f: nat)
    requires a.Valid() && (a.Normal() || f > 0) && OddRadix(r)
    modifies a, a.tab
    ensures a.Valid() && a.Normal() && Pow(r, f) > 0 && a.Value() == Sticky(old(a.Value()), Pow(r, f))
    ensures a.len <= old(a.len)
  {
    hide Pow, Val, Udiv1normInit;
    var d := DIGITS_PER_LIMB[r - 2];
    ghost var v := a.Value();
    var b: u32, bInv: u32, shift: nat, n0: nat, k: int := 0, 0, 0, 0, f;
    var rem := false;
    PowZero(r);
    PowPositive(r, 0);
    RoundByOne(v, Truncate);
    while k != 0
      invariant 0 <= k <= f && n0 <= d && shift < 32
      invariant n0 != 0 ==> b == Pow(r, n0) * Pow(2, shift) && b >= 0x8000_0000 && bInv == Udiv1normInit(b)
      invariant a.Valid() && (k < f ==> a.Normal()) && Pow(r, f - k) > 0 && a.len <= old(a.len)
      invariant k == f ==> old(a.Normal()) == a.Normal()
      invariant a.Value() == v / Pow(r, f - k) && (rem <==> v % Pow(r, f - k) != 0)
      decreases k
    {
      var n := Min(k, d);
      DigitsFit(r, n);
      if n != n0 {
        b, bInv, shift := PowUiInv(r, n);
        n0 := n;
      }
      DivideFurther(v, Pow(r, f - k), Pow(r, n));
      PowAdd(r, f - k, n);
      var r1 := a.DivSmall(b, bInv, shift, Pow(r, n));
      rem := rem || r1 != 0;
      k := k - n;
    }
    a.OrSticky(rem);
  }

  /** The number of bits by which a dividend is shifted before dividing by r^n. */
  function ExtraBits(n: nat, d: nat, radixShift: nat, isInt: bool, e: int, log2: int): (r: nat)
    requires d > 0
  {
    var l := (n + d - 1) / d;
    32 * l + if isInt then Max(2 + e - (n * radixShift + 32 * l), 0) else Max(e - log2, 0)
  }

  /** r^n fits in as many limbs as groups of d digits. */
  lemma PowerFits(r: nat, n: nat, d: nat, l: nat)
    requires r > 0 && n <= l * d && Pow(r, d) <= LIMB
    ensures Pow(r, n) <= Pow(2, 32 * l)
  {
    hide Pow;
    PowMonotone(r, n, l * d);
    assert l * d == d * l;
    PowOfPow(r, d, l);
    PowBaseMonotone(Pow(r, d), LIMB, l);
    LimbPow(l);
  }

  lemma GroupsCover(n: nat, d: nat)
    requires d > 0
    ensures n <= (n + d - 1) / d * d
  {
    DivMod(n + d - 1, d);
  }

  /** Enough bits are left after the division. */
  lemma EnoughBits(v: nat, log2: nat, r: nat, n: nat, d: nat, l: nat, extra: nat, e: nat)
    requires r > 0 && n <= l * d && Pow(r, d) <= LIMB
    requires Pow(2, log2) <= v && e <= log2 + extra
    ensures Pow(2, e) * Pow(r, n) <= v * Pow(2, 32 * l + extra)
  {
    hide Pow;
    PowerFits(r, n, d, l);
    PowMonotone(2, e, log2 + extra);
    PowAdd(2, log2, extra);
    PowAdd(2, 32 * l, extra);
    var a, b, c := Pow(2, log2), Pow(2, extra), Pow(2, 32 * l);
    MulMonotone(Pow(r, n), c, Pow(2, e));
    MulMonotone(Pow(2, e), a * b, c);
    MulMonotone(a, v, b * c);
    assert (a * b) * c == a * (b * c) by { MulAssoc(a, b, c); }
  }

  /** What is known of the position of the highest bit: zero has none. */
  ghost function Log2AtLeast(a: Mpb): (r: int)
    requires a.Valid()
    reads a, a.tab
  {
    if a.Value() == 0 then -1 else 0
  }

  /** How many bits to add before the division by radix1^n, with room for l limbs of quotient digits. */
  method ExtraFor(a: Mpb, radix1: nat, radixShift: nat, n: nat, isInt: bool, e: int, d: nat, l: nat)
    returns (extra: nat)
    requires a.Valid() && a.Normal() && OddRadix(radix1) && (isInt || e >= 0)
    requires d == DIGITS_PER_LIMB[radix1 - 2] && n <= l * d
    ensures isInt ==> extra == Max(2 + e - (n * radixShift + 32 * l), 0)
    ensures !isInt ==> extra <= e - Log2AtLeast(a)
    ensures !isInt && a.Value() > 0 ==> Pow(2, e) * Pow(radix1, n) <= a.Value() * Pow(2, 32 * l + extra)
  {
    hide Pow, Val;
    if isInt {
      extra := Max(2 + e - (n * radixShift + 32 * l), 0);
    } else {
      var log2 := a.FloorLog2();
      extra := Max(e - log2, 0);
      DigitsFit(radix1, d);
      if a.Value() > 0 {
        EnoughBits(a.Value(), log2, radix1, n, d, l, extra, e);
      }
    }
  }

  method MulPowDown(a: Mpb, radix1: nat, radixShift: nat, n: nat, isInt: bool, e: int)
    returns (eOff: int, ghost k: nat)
    requires a.Valid() && a.Normal() && OddRadix(radix1) && n > 0 && (isInt || e >= 0)
    requires a.len + ExtraBits(n, DIGITS_PER_LIMB[radix1 - 2], radixShift, isInt, e, Log2AtLeast(a)) / 32 + 1 <= a.tab.Length
    modifies a, a.tab
    ensures a.Valid() && a.Normal()
    ensures Pow(radix1, n) > 0 && a.Value() == Sticky(old(a.Value()) * Pow(2, k), Pow(radix1, n))
    ensures eOff == n * radixShift + k
    ensures a.len
         <= old(a.len) + ExtraBits(n, DIGITS_PER_LIMB[radix1 - 2], radixShift, isInt, e, old(Log2AtLeast(a))) / 32 + 1
    ensures isInt ==> eOff >= 2 + e
    ensures !isInt && old(a.Value()) > 0 ==> Pow(2, e) * Pow(radix1, n) <= old(a.Value()) * Pow(2, k)
  {
    hide Pow, Val, Sticky;
    var d := DIGITS_PER_LIMB[radix1 - 2];
    var l: nat := (n + d - 1) / d;
    GroupsCover(n, d);
    assert l > 0;
    var extra := ExtraFor(a, radix1, radixShift, n, isInt, e, d, l);
    var shift: nat := 32 * l + extra;
    k := shift;
    eOff := n * radixShift + 32 * l + extra;
    a.ShrRound(-(shift as int), Truncate);
    DivDown(a, radix1, n);
  }

  /** Multiply by (radix1 * 2^radixShift)^f, up to a power of two: the result stands for itself times 2^-eOff.
      A quotient is scaled by 2^k first and ends in a sticky bit. */
  method MulPow(a: Mpb, radix1: nat, radixShift: nat, f: int, isInt: bool, e: int)
    returns (eOff: int, ghost k: nat)
    requires a.Valid() && a.Normal() && (radix1 == 1 || OddRadix(radix1)) && (isInt || e >= 0)
    requires f >= 0 ==> a.Value() * Pow(radix1, f) < Pow(LIMB, a.tab.Length)
    requires f < 0 && radix1 != 1 ==>
      a.len + ExtraBits(-f, DIGITS_PER_LIMB[radix1 - 2], radixShift, isInt, e, Log2AtLeast(a)) / 32 + 1 <= a.tab.Length
    modifies a, a.tab
    ensures a.Valid() && a.Normal()
    ensures f >= 0 ==> a.Value() == old(a.Value()) * Pow(radix1, f) && eOff == -f * radixShift
    ensures f < 0 ==> Pow(radix1, -f) > 0 && a.Value() == Sticky(old(a.Value()) * Pow(2, k), Pow(radix1, -f))
    ensures f < 0 ==> eOff == -f * radixShift + k
    ensures f < 0 && radix1 != 1 && isInt ==> eOff >= 2 + e
    ensures f < 0 && radix1 != 1 && !isInt && old(a.Value()) > 0 ==> Pow(2, e) * Pow(radix1, -f) <= old(a.Value()) * Pow(2, k)
    ensures radix1 == 1 ==> k == 0
    ensures f < 0 && radix1 != 1 ==>
      a.len <= old(a.len) + ExtraBits(-f, DIGITS_PER_LIMB[radix1 - 2], radixShift, isInt, e, old(Log2AtLeast(a))) / 32 + 1
  {
    hide Pow, Val, Sticky;
    eOff := -f * radixShift;
    k := 0;
    if radix1 == 1 {
      PowOfOne(Max(f, -f));
      PowZero(2);
      StickyByOne(a.Value());
      return;
    }
    if f >= 0 {
      MulUp(a, radix1, f);
      return;
    }
    var offset;
    offset, k := MulPowDown(a, radix1, radixShift, -f, isInt, e);
    eOff := offset;
  }

  lemma {:induction false} PowOfOne(n: nat)
    ensures Pow(1, n) == 1
    decreases n
  {
    if n > 0 {
      PowOfOne(n - 1);
    }
  }

  lemma StickyByOne(n: nat)
    ensures Sticky(n * 1, 1) == n
  {
  }

  // ---- rounding the product ----

  /** The numerator and the denominator of m * 2^e * (radix1 * 2^radixShift)^f. */
  function Numerator(m: nat, e: int, radix1: nat, radixShift: nat, f: int): (r: nat) {
    var x := e + f * radixShift;
    m * Pow(radix1, Max(f, 0)) * Pow(2, Max(x, 0))
  }

  function Denominator(e: int, radix1: nat, radixShift: nat, f: int): (r: nat)
    requires radix1 > 0
    ensures r > 0
  {
    var x := e + f * radixShift;
    PowPositive(radix1, Max(-f, 0));
    PowPositive(2, Max(-x, 0));
    MulPositive(Pow(radix1, Max(-f, 0)), Pow(2, Max(-x, 0)));
    Pow(radix1, Max(-f, 0)) * Pow(2, Max(-x, 0))
  }

  lemma RoundDivScale(n: nat, d: nat, c: nat, mode: Mode)
    requires d > 0 && c > 0
    ensures d * c > 0 && RoundDiv(n * c, d * c, mode) == RoundDiv(n, d, mode)
  {
    MulPositive(d, c);
    var q, r := n / d, n % d;
    DivMod(n, d);
    assert n * c == q * (d * c) + r * c by { assert (q * d + r) * c == q * (d * c) + r * c; }
    MulMonotone(0, r, c);
    MulMonotone(r + 1, d, c);
    DivIs(n * c, d * c, q, r * c);
    ScaledHalf(r, d, c);
  }

  lemma ScaledHalf(r: nat, d: nat, c: nat)
    requires c > 0
    ensures 2 * (r * c) >= d * c <==> 2 * r >= d
    ensures 2 * (r * c) == d * c <==> 2 * r == d
  {
    assert 2 * (r * c) == (2 * r) * c;
    if 2 * r < d {
      MulStrictlyMonotone(2 * r, d, c);
    } else if 2 * r > d {
      MulStrictlyMonotone(d, 2 * r, c);
    }
  }

  /** Shifting the sticky quotient by s, at least two, rounds the exact quotient. */
  lemma RoundStickyShift(v: nat, d: nat, s: nat, mode: Mode)
    requires d > 0 && s >= 2
    ensures Pow(2, s) > 0 && d * Pow(2, s) > 0
    ensures RoundDiv(Sticky(v, d), Pow(2, s), mode) == RoundDiv(v, d * Pow(2, s), mode)
  {
    hide Pow, Sticky, RoundDiv;
    PowPositive(2, s - 2);
    PowNext(2, s - 1);
    PowNext(2, s - 2);
    RoundSticky(v, d, Pow(2, s - 2), mode);
  }

  /** Scaling by 2^k and dividing by 2^s leaves 2^(k - s). */
  lemma CancelPowers(m: nat, d: nat, k: nat, s: nat, mode: Mode)
    requires d > 0
    ensures Pow(2, s) > 0 && d * Pow(2, s) > 0
    ensures Pow(2, Max(s - k, 0)) > 0 && d * Pow(2, Max(s - k, 0)) > 0
    ensures RoundDiv(m * Pow(2, k), d * Pow(2, s), mode)
         == RoundDiv(m * Pow(2, Max(k - s, 0)), d * Pow(2, Max(s - k, 0)), mode)
  {
    hide Pow, RoundDiv;
    PowPositive(2, s);
    PowPositive(2, k);
    PowPositive(2, Max(s - k, 0));
    MulPositive(d, Pow(2, s));
    MulPositive(d, Pow(2, Max(s - k, 0)));
    PowZero(2);
    if k >= s {
      PowAdd(2, k - s, s);
      MulAssoc(m, Pow(2, k - s), Pow(2, s));
      RoundDivScale(m * Pow(2, k - s), d, Pow(2, s), mode);
    } else {
      PowAdd(2, s - k, k);
      MulAssoc(d, Pow(2, s - k), Pow(2, k));
      RoundDivScale(m, d * Pow(2, s - k), Pow(2, k), mode);
    }
  }

  /** The fraction for a negative exponent, when 2^k is 2^x times 2^s. */
  lemma QuotientParts(v: nat, e: int, radix1: nat, radixShift: nat, n: int, k: int, s: int)
    requires radix1 > 0 && n > 0 && k - s == e + -n * radixShift
    ensures Numerator(v, e, radix1, radixShift, -n) == v * Pow(2, Max(k - s, 0))
    ensures Denominator(e, radix1, radixShift, -n) == Pow(radix1, n) * Pow(2, Max(s - k, 0))
  {
    hide Pow;
    PowZero(radix1);
  }

  /** What the shift at the end makes of a scaled quotient. */
  lemma RoundsQuotient(v: nat, e: int, radix1: nat, radixShift: nat, n: int, k: nat, s: int, mode: Mode)
    requires radix1 > 0 && n > 0 && s == -e + n * radixShift + k && s >= 2
    ensures Pow(radix1, n) > 0 && Pow(2, s) > 0
    ensures RoundDiv(Sticky(v * Pow(2, k), Pow(radix1, n)), Pow(2, s), mode)
         == RoundDiv(Numerator(v, e, radix1, radixShift, -n), Denominator(e, radix1, radixShift, -n), mode)
  {
    hide Pow, Sticky, RoundDiv, Numerator, Denominator;
    PowPositive(radix1, n);
    PowPositive(2, s);
    QuotientParts(v, e, radix1, radixShift, n, k, s);
    CancelPowers(v, Pow(radix1, n), k, s, mode);
    RoundStickyShift(v * Pow(2, k), Pow(radix1, n), s, mode);
  }

  /** The limbs that the computation of round(m * 2^e * radix^f) needs, the carry limb of a shift included. */
  ghost predicate RoundFits(m: nat, e: int, radix1: nat, radixShift: nat, f: int, cap: nat)
    requires radix1 == 1 || OddRadix(radix1)
  {
    if f >= 0 || radix1 == 1 then
      var x := e + f * radixShift;
      var room := if x > 0 then x / 32 + 1 else 0;
      room < cap && m * Pow(radix1, Max(f, 0)) < Pow(LIMB, cap - room)
    else
      2 + ExtraBits(-f, DIGITS_PER_LIMB[radix1 - 2], radixShift, true, e, 0) / 32 + 1 <= cap
  }

  lemma LenBound(s: seq<u32>, n: nat)
    requires s != [] && s[|s| - 1] != 0 && Val(s) < Pow(LIMB, n)
    ensures |s| <= n
  {
    hide Pow, Val;
    TopBound(s);
    if |s| > n {
      PowMonotone(LIMB, n, |s| - 1);
    }
  }

  /** A product that needs no division: shift it by -x bits. */
  method ShiftProduct(a: Mpb, x: int, mode: Mode)
    requires a.Valid() && a.Normal()
    requires x > 0 ==> x / 32 + 1 < a.tab.Length && a.Value() < Pow(LIMB, a.tab.Length - (x / 32 + 1))
    modifies a, a.tab
    ensures a.Valid() && (old(a.Value()) > 0 ==> a.Normal()) && Pow(2, Max(-x, 0)) > 0
    ensures a.Value() == RoundDiv(old(a.Value()) * Pow(2, Max(x, 0)), Pow(2, Max(-x, 0)), mode)
  {
    hide Pow, Val, RoundDiv;
    PowZero(2);
    PowPositive(2, Max(-x, 0));
    if x > 0 {
      if a.Value() > 0 {
        TopLimb(a.tab[..a.len]);
        LenBound(a.tab[..a.len], a.tab.Length - (x / 32 + 1));
      } else {
        ZeroLength(a.tab[..a.len]);
      }
      RoundByOne(a.Value() * Pow(2, x), mode);
    }
    a.ShrRound(-x, mode);
  }

  lemma ProductPositive(m: nat, r: nat, f: nat)
    requires m > 0 && r > 0
    ensures m * Pow(r, f) > 0
  {
    PowPositive(r, f);
    MulPositive(m, Pow(r, f));
  }

  lemma FitsWithRoom(v: nat, cap: nat, room: nat)
    requires room <= cap && v < Pow(LIMB, cap - room)
    ensures v < Pow(LIMB, cap)
  {
    PowMonotone(LIMB, cap - room, cap);
  }

  /** The product by a power of the radix, when no division is needed. */
  method RoundProduct(a: Mpb, e: int, radix1: nat, radixShift: nat, f: int, mode: Mode)
    requires a.Valid() && a.Normal()
    requires radix1 == 1 || (f >= 0 && OddRadix(radix1))
    requires RoundFits(a.Value(), e, radix1, radixShift, f, a.tab.Length)
    modifies a, a.tab
    ensures a.Valid() && (old(a.Value()) > 0 ==> a.Normal())
    ensures a.Value()
         == RoundDiv(Numerator(old(a.Value()), e, radix1, radixShift, f), Denominator(e, radix1, radixShift, f), mode)
  {
    hide Pow, Val, Sticky, RoundDiv;
    ghost var x, cap, m := e + f * radixShift, a.tab.Length, a.Value();
    PowOfOne(Max(f, -f));
    PowOfOne(Max(f, 0));
    PowZero(radix1);
    PowZero(2);
    FitsWithRoom(m * Pow(radix1, Max(f, 0)), cap, if x > 0 then x / 32 + 1 else 0);
    if m > 0 {
      ProductPositive(m, radix1, Max(f, 0));
    }
    if radix1 == 1 {
      StickyByOne(m);
    }
    var eOff, k := MulPow(a, radix1, radixShift, f, true, e);
    assert eOff == -f * radixShift && a.Value() == m * Pow(radix1, Max(f, 0));
    ShiftProduct(a, e - eOff, mode);
  }

  method RoundQuotient(a: Mpb, e: int, radix1: nat, radixShift: nat, f: int, mode: Mode)
    requires a.Valid() && a.Normal() && a.len <= 2 && f < 0 && OddRadix(radix1)
    requires RoundFits(a.Value(), e, radix1, radixShift, f, a.tab.Length)
    modifies a, a.tab
    ensures a.Valid() && a.Normal()
    ensures a.Value()
         == RoundDiv(Numerator(old(a.Value()), e, radix1, radixShift, f), Denominator(e, radix1, radixShift, f), mode)
  {
    hide Pow, Val, Sticky, RoundDiv, Numerator, Denominator;
    ghost var m := a.Value();
    var eOff, k := MulPow(a, radix1, radixShift, f, true, e);
    RoundsQuotient(m, e, radix1, radixShift, -f, k, -e + eOff, mode);
    a.ShrRound(-e + eOff, mode);
  }

  /** round(m * 2^e * radix^f), for every sign of e and f and every mode. */
  method MulPowRound(a: Mpb, m: nat, e: int, radix1: nat, radixShift: nat, f: int, mode: Mode)
    requires m < DLIMB && a.tab.Length >= 2 && (radix1 == 1 || OddRadix(radix1))
    requires RoundFits(m, e, radix1, radixShift, f, a.tab.Length)
    modifies a, a.tab
    ensures a.Valid() && (m > 0 ==> a.Normal())
    ensures a.Value()
         == RoundDiv(Numerator(m, e, radix1, radixShift, f), Denominator(e, radix1, radixShift, f), mode)
  {
    hide Pow, Val, RoundDiv, Numerator, Denominator, RoundFits;
    a.SetU64(m);
    if f >= 0 || radix1 == 1 {
      RoundProduct(a, e, radix1, radixShift, f, mode);
    } else {
      RoundQuotient(a, e, radix1, radixShift, f, mode);
    }
  }
}
