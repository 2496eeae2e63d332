/** Arithmetic on little-endian arrays of 32-bit limbs, in place. */
module Limbs {
  import opened Bytes
  import opened Powers

  /** The number that a sequence of limbs stands for. */
  function Val(s: seq<u32>): (r: nat) {
    if s == [] then 0 else s[0] + LIMB * Val(s[1..])
  }

  lemma ValEmpty()
    ensures Val([]) == 0
  {
  }

  lemma {:induction false} ValSnoc(s: seq<u32>, x: u32)
    ensures Val(s + [x]) == Val(s) + x * Pow(LIMB, |s|)
    decreases |s|
  {
    if s == [] {
      assert Val([x]) == x + LIMB * Val([]);
    } else {
      assert (s + [x])[1..] == s[1..] + [x];
      ValSnoc(s[1..], x);
      var p := Pow(LIMB, |s| - 1);
      assert LIMB * (x * p) == x * (LIMB * p);
    }
  }

  lemma {:induction false} ValConcat(a: seq<u32>, b: seq<u32>)
    ensures Val(a + b) == Val(a) + Pow(LIMB, |a|) * Val(b)
    decreases |a|
  {
    if a == [] {
      assert a + b == b;
    } else {
      assert (a + b)[1..] == a[1..] + b;
      ValConcat(a[1..], b);
      var p, v := Pow(LIMB, |a| - 1), Val(b);
      assert LIMB * (p * v) == (LIMB * p) * v;
    }
  }

  lemma {:induction false} ValBound(s: seq<u32>)
    ensures Val(s) < Pow(LIMB, |s|)
    decreases |s|
  {
    if s != [] {
      ValBound(s[1..]);
    }
  }

  lemma {:induction false} ValZeros(n: nat)
    ensures Val(seq(n, _ => 0)) == 0
    decreases n
  {
    if n > 0 {
      assert seq(n, _ => 0 as u32)[1..] == seq(n - 1, _ => 0);
      ValZeros(n - 1);
    }
  }

  // ---- multiplication and shift to the left ----

  /** One step of a multiplication: `t` is what the position contributes, with the carry in. */
  lemma MulStep(done: int, was: int, x: int, y: int, b: int, l: int, l0: int, t: int, p: int)
    requires t == x * b + l && done + l * p == was * b + l0
    requires y == t % LIMB
    ensures (done + y * p) + (t / LIMB) * (LIMB * p) == (was + x * p) * b + l0
  {
    assert t == (t / LIMB) * LIMB + y;
    var h := t / LIMB;
    assert t * p == h * (LIMB * p) + y * p;
    assert t * p == (x * p) * b + l * p;
    assert (was + x * p) * b == was * b + (x * p) * b;
  }

  lemma ProductFits(x: int, b: int, l: int)
    requires 0 <= x < LIMB && 0 <= b < LIMB && 0 <= l < LIMB
    ensures 0 <= x * b + l && (x * b + l) / LIMB < LIMB
  {
    MulMonotone(x, LIMB - 1, b);
    MulMonotone(0, x, b);
    assert (LIMB - 1) * b == LIMB * b - b;
  }

  /** tab[0..n] * b + l; returns the carry out. */
  method MpMul1(tab: array<u32>, n: nat, b: u32, l0: u32) returns (l: u32)
    requires n <= tab.Length
    modifies tab
    ensures Val(tab[..n]) + l * Pow(LIMB, n) == Val(old(tab[..n])) * b + l0
    ensures tab[n..] == old(tab[n..])
  {
    hide Pow, Val;
    PowZero(LIMB);
    ValEmpty();
    l := l0;
    var i := 0;
    ghost var was := tab[..];
    assert was[..0] == tab[..0] == [];
    while i < n
      invariant 0 <= i <= n
      invariant Val(tab[..i]) + l * Pow(LIMB, i) == Val(was[..i]) * b + l0
      invariant tab[i..] == was[i..]
    {
      ghost var done, carry := tab[..i], l;
      var x := tab[i];
      var t := x * b + l;
      ProductFits(x, b, l);
      tab[i] := t % LIMB;
      l := t / LIMB;
      PowNext(LIMB, i);
      MulStep(Val(done), Val(was[..i]), x, t % LIMB, b, carry, l0, t, Pow(LIMB, i));
      assert tab[..i + 1] == done + [tab[i]] && was[..i + 1] == was[..i] + [x];
      ValSnoc(done, tab[i]);
      ValSnoc(was[..i], x);
      i := i + 1;
    }
  }

  lemma ShiftFactors(shift: nat)
    requires 1 <= shift < 32
    ensures Pow(2, shift) > 0 && Pow(2, 32 - shift) > 0 && Pow(2, shift) * Pow(2, 32 - shift) == LIMB
  {
    PowPositive(2, shift);
    PowPositive(2, 32 - shift);
    PowAdd(2, shift, 32 - shift);
    Pow2Constants();
  }

  /** With s * c one limb: multiplying x by s moves the part above c into the next limb. */
  lemma ScaleLimb(x: int, s: int, c: int)
    requires s > 0 && c > 0 && s * c == LIMB && 0 <= x
    ensures (x * s) / LIMB == x / c && (x * s) % LIMB == (x % c) * s && (x % c) * s + s <= LIMB
    ensures x < LIMB ==> x / c < s
  {
    var q, r := x / c, x % c;
    DivMod(x, c);
    assert x * s == q * LIMB + r * s by {
      assert (q * c + r) * s == q * (s * c) + r * s;
    }
    MulMonotone(r, c - 1, s);
    assert (c - 1) * s == LIMB - s;
    MulMonotone(0, r, s);
    DivIs(x * s, LIMB, q, r * s);
    if q >= s {
      MulMonotone(s, q, c);
    }
  }

  /** Shifting a limb left by `shift` and or-ing the carry in is multiplying and adding. */
  lemma ShiftLimb(x: u32, l: nat, shift: nat)
    requires 1 <= shift < 32 && l < Pow(2, shift)
    ensures Pow(2, 32 - shift) > 0
    ensures (x * Pow(2, shift)) % LIMB + l == (x * Pow(2, shift) + l) % LIMB
    ensures x / Pow(2, 32 - shift) == (x * Pow(2, shift) + l) / LIMB
    ensures x / Pow(2, 32 - shift) < Pow(2, shift)
    ensures (x * Pow(2, shift)) % LIMB + l < LIMB
  {
    hide Pow;
    var s, c := Pow(2, shift), Pow(2, 32 - shift);
    ShiftFactors(shift);
    ScaleLimb(x, s, c);
    DivMod(x * s, LIMB);
    DivIs(x * s + l, LIMB, (x * s) / LIMB, (x * s) % LIMB + l);
  }

  lemma QuotientOf(t: int)
    ensures t == (t / LIMB) * LIMB + t % LIMB
  {
  }

  /** (tab[0..n] << shift) + low; returns the bits shifted out. */
  method MpShl(tab: array<u32>, n: nat, shift: nat, low: u32) returns (l: u32)
    requires n <= tab.Length && 1 <= shift < 32 && low < Pow(2, shift)
    modifies tab
    ensures Val(tab[..n]) + l * Pow(LIMB, n) == Val(old(tab[..n])) * Pow(2, shift) + low
    ensures l < Pow(2, shift)
    ensures tab[n..] == old(tab[n..])
  {
    hide Pow, Val;
    PowZero(LIMB);
    ValEmpty();
    l := low;
    var i := 0;
    ghost var was := tab[..];
    ghost var b := Pow(2, shift);
    assert was[..0] == tab[..0] == [];
    PowPositive(2, 32 - shift);
    while i < n
      invariant 0 <= i <= n && l < b
      invariant Val(tab[..i]) + l * Pow(LIMB, i) == Val(was[..i]) * b + low
      invariant tab[i..] == was[i..]
    {
      ghost var done, carry := tab[..i], l;
      var x := tab[i];
      ShiftLimb(x, l, shift);
      QuotientOf(x * b + l);
      tab[i] := (x * Pow(2, shift)) % LIMB + l;
      l := x / Pow(2, 32 - shift);
      PowNext(LIMB, i);
      MulStep(Val(done), Val(was[..i]), x, tab[i], b, carry, low, x * b + carry, Pow(LIMB, i));
      assert tab[..i + 1] == done + [tab[i]] && was[..i + 1] == was[..i] + [x];
      ValSnoc(done, tab[i]);
      ValSnoc(was[..i], x);
      i := i + 1;
    }
  }

  // ---- division and shift to the right ----

  /** One step of a division, from the most significant limb down. */
  lemma DivStep(high: int, p: int, was: int, x: int, quot: int, r: int, b: int, q: int, r1: int)
    requires high * p + was == quot * b + r
    requires r * LIMB + x == q * b + r1
    ensures high * (LIMB * p) + (x + LIMB * was) == (q + LIMB * quot) * b + r1
  {
    assert LIMB * (high * p + was) == high * (LIMB * p) + LIMB * was;
    assert LIMB * (quot * b + r) == (LIMB * quot) * b + r * LIMB;
    assert (q + LIMB * quot) * b == q * b + (LIMB * quot) * b;
  }

  lemma QuotientFits(r: int, x: u32, b: int)
    requires 0 <= r < b
    ensures 0 <= (r * LIMB + x) / b < LIMB && 0 <= (r * LIMB + x) % b < b
  {
    var n := r * LIMB + x;
    DivMod(n, b);
    MulMonotone(r, b - 1, LIMB);
    assert (b - 1) * LIMB == LIMB * b - LIMB;
    if n / b >= LIMB {
      MulMonotone(LIMB, n / b, b);
    }
    if n / b < 0 {
      MulMonotone(n / b, -1, b);
    }
  }

  lemma ValHead(s: seq<u32>, i: nat, n: nat)
    requires i < n <= |s|
    ensures Val(s[i..n]) == s[i] + LIMB * Val(s[i + 1..n])
  {
    assert s[i..n][1..] == s[i + 1..n];
  }

  /** The schoolbook division of r0 * LIMB^n + tab[0..n] by b; returns the remainder. */
  method MpDiv1(tab: array<u32>, n: nat, b: u32, r0: u32) returns (r: u32)
    requires n <= tab.Length && r0 < b
    modifies tab
    ensures r0 * Pow(LIMB, n) + Val(old(tab[..n])) == Val(tab[..n]) * b + r && r < b
    ensures tab[n..] == old(tab[n..])
  {
    r := r0;
    var i := n;
    ghost var was := tab[..];
    assert was[n..n] == tab[..][n..n] == [];
    while i > 0
      invariant 0 <= i <= n && r < b
      invariant r0 * Pow(LIMB, n - i) + Val(was[i..n]) == Val(tab[..][i..n]) * b + r
      invariant tab[..i] == was[..i] && tab[n..] == was[n..]
    {
      i := i - 1;
      ghost var rest := tab[..][i + 1..n];
      var a := r * LIMB + tab[i];
      QuotientFits(r, tab[i], b);
      DivMod(a, b);
      DivStep(r0, Pow(LIMB, n - i - 1), Val(was[i + 1..n]), was[i], Val(rest), r, b, a / b, a % b);
      tab[i] := a / b;
      r := a % b;
      assert tab[..][i + 1..n] == rest;
      ValHead(was, i, n);
      ValHead(tab[..], i, n);
    }
    assert was[0..n] == was[..n] && tab[..][0..n] == tab[..n];
  }

  /** Shifting a limb right with the bits of the limb above. */
  lemma ShiftRightLimb(high: nat, x: u32, shift: nat)
    requires 1 <= shift < 32
    ensures Pow(2, shift) > 0
    ensures x / Pow(2, shift) + (high * Pow(2, 32 - shift)) % LIMB
         == ((high % Pow(2, shift)) * LIMB + x) / Pow(2, shift)
    ensures ((high % Pow(2, shift)) * LIMB + x) % Pow(2, shift) == x % Pow(2, shift)
  {
    hide Pow;
    var s, c := Pow(2, shift), Pow(2, 32 - shift);
    ShiftFactors(shift);
    ScaleLimb(high, c, s);
    var r := high % s;
    DivMod(x, s);
    assert r * LIMB + x == (r * c + x / s) * s + x % s by {
      assert r * (s * c) == (r * c) * s;
      assert (r * c + x / s) * s == (r * c) * s + (x / s) * s;
    }
    DivIs(r * LIMB + x, s, r * c + x / s, x % s);
  }

  lemma PowZero(b: nat)
    ensures Pow(b, 0) == 1
  {
  }

  lemma PowNext(b: nat, n: nat)
    ensures Pow(b, n + 1) == b * Pow(b, n)
  {
  }

  lemma HighFits(high: nat, b: nat)
    requires high < b
    ensures high % b == high
  {
    DivIs(high, b, 0, high);
  }

  /** One limb of the shift: `was` and `now` are the limbs above it before and after. */
  lemma ShrStep(high: nat, p: nat, was: nat, now: nat, l: nat, x: u32, shift: nat)
    requires 1 <= shift < 32 && Pow(2, shift) > 0
    requires high * p + was == now * Pow(2, shift) + l % Pow(2, shift)
    ensures Pow(2, 32 - shift) > 0
    ensures var y := x / Pow(2, shift) + (l * Pow(2, 32 - shift)) % LIMB;
      0 <= y < LIMB
      && high * (LIMB * p) + (x + LIMB * was) == (y + LIMB * now) * Pow(2, shift) + x % Pow(2, shift)
  {
    hide Pow;
    var b := Pow(2, shift);
    PowPositive(2, 32 - shift);
    ShiftRightLimb(l, x, shift);
    var t := (l % b) * LIMB + x;
    QuotientFits(l % b, x, b);
    DivMod(t, b);
    DivStep(high, p, was, x, now, l % b, b, t / b, t % b);
  }

  /** (high * LIMB^n + tab[0..n]) >> shift; returns the bits shifted out. */
  method MpShr(tab: array<u32>, n: nat, shift: nat, high: u32) returns (rem: u32)
    requires n <= tab.Length && 1 <= shift < 32 && high < Pow(2, shift)
    modifies tab
    ensures high * Pow(LIMB, n) + Val(old(tab[..n])) == Val(tab[..n]) * Pow(2, shift) + rem && rem < Pow(2, shift)
    ensures tab[n..] == old(tab[n..])
  {
    hide Pow, Val;
    ShiftFactors(shift);
    PowPositive(2, 32 - shift);
    ValEmpty();
    ghost var b := Pow(2, shift);
    PowZero(LIMB);
    HighFits(high, b);
    var l: u32 := high;
    var i := n;
    ghost var was := tab[..];
    assert was[n..n] == tab[..][n..n] == [];
    while i > 0
      invariant 0 <= i <= n
      invariant high * Pow(LIMB, n - i) + Val(was[i..n]) == Val(tab[..][i..n]) * b + l % b
      invariant tab[..i] == was[..i] && tab[n..] == was[n..]
    {
      i := i - 1;
      ghost var rest := tab[..][i + 1..n];
      var a := tab[i];
      PowNext(LIMB, n - i - 1);
      ShrStep(high, Pow(LIMB, n - i - 1), Val(was[i + 1..n]), Val(rest), l, a, shift);
      tab[i] := a / Pow(2, shift) + (l * Pow(2, 32 - shift)) % LIMB;
      l := a;
      assert tab[..][i + 1..n] == rest;
      ValHead(was, i, n);
      ValHead(tab[..], i, n);
    }
    assert was[0..n] == was[..n] && tab[..][0..n] == tab[..n];
    rem := l % Pow(2, shift);
  }

  lemma CarryFits(x: u32, k: u32)
    ensures var a := (x + k) % LIMB; (x + k) / LIMB == if a < k then 1 else 0
  {
  }

  /** The limbs from `i` on are as they were: only the lower ones changed. */
  lemma ValUpper(now: seq<u32>, was: seq<u32>, i: nat, n: nat)
    requires i <= n <= |now| == |was| && now[i..] == was[i..]
    ensures Val(now[..n]) - Val(now[..i]) == Val(was[..n]) - Val(was[..i])
    ensures now[n..] == was[n..]
  {
    var rest := was[i..n];
    assert now[..n] == now[..i] + rest by {
      assert now[i..n] == now[i..][..n - i] == was[i..][..n - i] == rest;
    }
    assert was[..n] == was[..i] + rest;
    ValConcat(now[..i], rest);
    ValConcat(was[..i], rest);
    assert now[n..] == now[i..][n - i..] && was[n..] == was[i..][n - i..];
  }

  /** tab[0..n] + b; returns the carry out. */
  method MpAddUi(tab: array<u32>, b: u32, n: nat) returns (k: u32)
    requires n <= tab.Length
    modifies tab
    ensures Val(tab[..n]) + k * Pow(LIMB, n) == Val(old(tab[..n])) + b
    ensures tab[n..] == old(tab[n..])
    ensures b <= 1 ==> k <= 1
  {
    hide Pow;
    k := b;
    var i := 0;
    ghost var was := tab[..];
    assert was[..0] == tab[..0] == [];
    PowZero(LIMB);
    while i < n
      invariant 0 <= i <= n && (i > 0 ==> k <= 1) && (b <= 1 ==> k <= 1)
      invariant Val(tab[..i]) + k * Pow(LIMB, i) == Val(was[..i]) + b
      invariant tab[i..] == was[i..]
    {
      if k == 0 {
        ValUpper(tab[..], was, i, n);
        assert tab[..][..n] == tab[..n] && tab[..][..i] == tab[..i];
        return;
      }
      ghost var done, carry := tab[..i], k;
      var x := tab[i];
      var a := (x + k) % LIMB;
      CarryFits(x, k);
      k := if a < k then 1 else 0;
      tab[i] := a;
      MulStep(Val(done), Val(was[..i]), x, a, 1, carry, b, x + carry, Pow(LIMB, i));
      PowNext(LIMB, i);
      assert tab[..i + 1] == done + [tab[i]] && was[..i + 1] == was[..i] + [x];
      ValSnoc(done, tab[i]);
      ValSnoc(was[..i], x);
      i := i + 1;
    }
  }
}
