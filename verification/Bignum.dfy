/** Big numbers: a limb array with a current length. */
module Bignum {
  import opened Bytes
  import opened Powers
  import opened Limbs
  import opened Division
  import opened Rounding

  // ---- limbs and bits ----

  /** Dropping the l lowest limbs. */
  lemma ValDrop(s: seq<u32>, l: nat)
    requires l <= |s|
    ensures Pow(LIMB, l) > 0
    ensures Val(s) / Pow(LIMB, l) == Val(s[l..]) && Val(s) % Pow(LIMB, l) == Val(s[..l])
  {
    hide Pow, Val;
    PowPositive(LIMB, l);
    assert s == s[..l] + s[l..];
    ValConcat(s[..l], s[l..]);
    ValBound(s[..l]);
    var p, v := Pow(LIMB, l), Val(s[l..]);
    assert p * v == v * p;
    DivIs(Val(s), p, v, Val(s[..l]));
  }

  lemma {:induction false} ValZeroIff(s: seq<u32>)
    ensures Val(s) == 0 <==> forall i :: 0 <= i < |s| ==> s[i] == 0
    decreases |s|
  {
    if s != [] {
      ValZeroIff(s[1..]);
      if Val(s) == 0 {
        assert forall i :: 1 <= i < |s| ==> s[i] == s[1..][i - 1];
      } else {
        if s[0] == 0 {
          var i :| 0 <= i < |s[1..]| && s[1..][i] != 0;
          assert s[i + 1] != 0;
        }
      }
    }
  }

  /** Two limb sequences of the same length with the same value are the same. */
  lemma {:induction false} ValInjective(a: seq<u32>, b: seq<u32>)
    requires |a| == |b| && Val(a) == Val(b)
    ensures a == b
    decreases |a|
  {
    if a != [] {
      assert (Val(a) - a[0]) % LIMB == 0 && (Val(b) - b[0]) % LIMB == 0;
      ValInjective(a[1..], b[1..]);
      assert a == [a[0]] + a[1..] && b == [b[0]] + b[1..];
    }
  }

  /** The power of two at bit k. */
  lemma BitPower(k: nat)
    ensures Pow(2, k) == Pow(LIMB, k / 32) * Pow(2, k % 32) && Pow(2, k) > 0
    ensures Pow(LIMB, k / 32) > 0 && Pow(2, k % 32) > 0
  {
    LimbPow(k / 32);
    PowAdd(2, 32 * (k / 32), k % 32);
    PowPositive(2, k);
    PowPositive(LIMB, k / 32);
    PowPositive(2, k % 32);
  }

  lemma EvenAdd(x: int, y: int)
    ensures (x + 2 * y) % 2 == x % 2
  {
  }

  /** Bit k of a number is bit k % 32 of limb k / 32, and 0 beyond the last limb. */
  lemma BitOfLimb(s: seq<u32>, k: nat)
    ensures Pow(2, k) > 0 && Pow(2, k % 32) > 0
    ensures Val(s) / Pow(2, k) % 2 == if k / 32 >= |s| then 0 else s[k / 32] / Pow(2, k % 32) % 2
    ensures k / 32 >= |s| ==> Val(s) / Pow(2, k) == 0
  {
    hide Pow, Val;
    var l, j := k / 32, k % 32;
    BitPower(k);
    var p, c := Pow(LIMB, l), Pow(2, j);
    if l >= |s| {
      SmallQuotient(s, k);
    } else {
      ValDrop(s, l);
      ValFront(s[l..]);
      var x, v := s[l], Val(s[l..][1..]);
      DivDiv(Val(s), p, c);
      assert Val(s) / Pow(2, k) == (x + LIMB * v) / c;
      HighBitsEven(x, v, j);
    }
  }

  lemma ValFront(s: seq<u32>)
    requires s != []
    ensures Val(s) == s[0] + LIMB * Val(s[1..])
  {
  }

  lemma SmallQuotient(s: seq<u32>, k: nat)
    requires k / 32 >= |s|
    ensures Pow(2, k) > 0 && Val(s) / Pow(2, k) == 0 && Val(s) % Pow(2, k) == Val(s)
  {
    hide Pow, Val;
    BitPower(k);
    ValBound(s);
    PowMonotone(LIMB, |s|, k / 32);
    MulMonotone(1, Pow(2, k % 32), Pow(LIMB, k / 32));
    DivIs(Val(s), Pow(2, k), 0, Val(s));
  }

  /** A multiple of c added above the quotient by c. */
  lemma AddMultiple(x: nat, c: nat, k: nat)
    requires c > 0
    ensures (x + k * c) / c == x / c + k && (x + k * c) % c == x % c
  {
    DivMod(x, c);
    assert (x / c + k) * c == (x / c) * c + k * c;
    DivIs(x + k * c, c, x / c + k, x % c);
  }

  lemma HighBitsEven(x: nat, v: nat, j: nat)
    requires j < 32
    ensures Pow(2, j) > 0 && (x + LIMB * v) / Pow(2, j) % 2 == x / Pow(2, j) % 2
  {
    hide Pow;
    Pow2Constants();
    PowAdd(2, j, 32 - j);
    PowAdd(2, 1, 31 - j);
    PowPositive(2, j);
    PowOne();
    var c, h := Pow(2, j), Pow(2, 31 - j);
    var k := 2 * (h * v);
    assert LIMB * v == k * c by {
      assert LIMB == c * (2 * h);
      assert (c * (2 * h)) * v == (2 * (h * v)) * c;
    }
    AddMultiple(x, c, k);
    EvenAdd(x / c, h * v);
  }

  lemma PowOne()
    ensures Pow(2, 1) == 2
  {
    assert Pow(2, 0) == 1;
  }

  /** The bits below k are those of the limbs below k / 32 and the low bits of limb k / 32. */
  lemma LowBitsOfLimbs(s: seq<u32>, k: nat)
    ensures Pow(2, k) > 0 && Pow(2, k % 32) > 0
    ensures var l := k / 32;
      Val(s) % Pow(2, k) != 0 <==>
        if l >= |s| then Val(s) != 0 else Val(s[..l]) != 0 || s[l] % Pow(2, k % 32) != 0
  {
    hide Pow, Val;
    var l, j := k / 32, k % 32;
    BitPower(k);
    var p, c := Pow(LIMB, l), Pow(2, j);
    if l >= |s| {
      SmallQuotient(s, k);
    } else {
      ValDrop(s, l);
      ValFront(s[l..]);
      DivDiv(Val(s), p, c);
      var x, v := s[l], Val(s[l..][1..]);
      LowBitsOfSum(x, v, j);
      var low := (x + LIMB * v) % c;
      if low > 0 {
        MulMonotone(1, low, p);
      }
    }
  }

  lemma LowBitsOfSum(x: nat, v: nat, j: nat)
    requires j < 32
    ensures Pow(2, j) > 0 && (x + LIMB * v) % Pow(2, j) == x % Pow(2, j)
  {
    hide Pow;
    Pow2Constants();
    PowAdd(2, j, 32 - j);
    PowPositive(2, j);
    var c, h := Pow(2, j), Pow(2, 32 - j);
    assert LIMB * v == (h * v) * c by {
      assert (c * h) * v == (h * v) * c;
    }
    AddMultiple(x, c, h * v);
  }

  /** The number of significant bits. */
  function NBits(b: nat): (r: nat)
    decreases b
  {
    if b == 0 then 0 else 1 + NBits(b / 2)
  }

  lemma {:induction false} NBitsMeaning(b: nat)
    requires b > 0
    ensures NBits(b) > 0 && Pow(2, NBits(b) - 1) <= b < Pow(2, NBits(b))
    decreases b
  {
    PowZero(2);
    PowNext(2, NBits(b) - 1);
    if b > 1 {
      NBitsMeaning(b / 2);
      PowNext(2, NBits(b / 2) - 1);
    } else {
      assert NBits(0) == 0;
    }
  }

  /** The number of leading zero bits of a limb. */
  function Clz32(x: u32): (r: nat)
    requires x > 0
    ensures r < 32 && 0x8000_0000 <= x * Pow(2, r) < LIMB
  {
    ClzMeaning(x);
    32 - NBits(x)
  }

  lemma ClzMeaning(x: u32)
    requires x > 0
    ensures 0 < NBits(x) <= 32
    ensures 0x8000_0000 <= x * Pow(2, 32 - NBits(x)) < LIMB
  {
    hide Pow, NBits;
    NBitsMeaning(x);
    Pow2Constants();
    var n := NBits(x);
    if n > 32 {
      PowMonotone(2, 32, n - 1);
    }
    PowPositive(2, 32 - n);
    PowAdd(2, n - 1, 32 - n);
    PowAdd(2, n, 32 - n);
    MulMonotone(Pow(2, n - 1), x, Pow(2, 32 - n));
    MulStrictlyMonotone(x, Pow(2, n), Pow(2, 32 - n));
  }

  class Mpb {
    const tab: array<u32>
    var len: nat

    constructor (capacity: nat)
      requires capacity > 0
      ensures fresh(tab) && tab.Length == capacity && len == 1 && Valid()
    {
      tab := new u32[capacity](_ => 0);
      len := 1;
    }

    ghost predicate Valid()
      reads this
    {
      1 <= len <= tab.Length
    }

    ghost function Value(): (r: nat)
      requires Valid()
      reads this, tab
    {
      Val(tab[..len])
    }

    /** No leading zero limb, except in the number zero. */
    ghost predicate Normal()
      requires Valid()
      reads this, tab
    {
      len == 1 || tab[len - 1] != 0
    }

    method Renorm()
      requires Valid()
      modifies this`len
      ensures Valid() && Normal() && len <= old(len) && Value() == old(Value())
    {
      while len > 1 && tab[len - 1] == 0
        invariant Valid() && len <= old(len) && Val(tab[..len]) == old(Val(tab[..len]))
        decreases len
      {
        assert tab[..len] == tab[..len - 1] + [0];
        ValSnoc(tab[..len - 1], 0);
        len := len - 1;
      }
    }

    method SetU64(m: nat)
      requires tab.Length >= 2 && m < LIMB * LIMB
      modifies this, tab
      ensures Valid() && Normal() && Value() == m && len <= 2
    {
      tab[0] := m % LIMB;
      tab[1] := m / LIMB;
      len := if tab[1] == 0 then 1 else 2;
      ValTwo(tab[0], tab[1]);
      assert tab[..len] == if tab[1] == 0 then [tab[0]] else [tab[0], tab[1]];
    }

    method GetU64() returns (r: nat)
      requires Valid() && Normal() && Value() < LIMB * LIMB
      ensures r == Value()
    {
      ValTwo(tab[0], if len > 1 then tab[1] else 0);
      if len == 1 {
        assert tab[..len] == [tab[0]];
        r := tab[0];
      } else {
        if len > 2 {
          TooLong(tab[..len]);
        }
        assert tab[..len] == [tab[0], tab[1]];
        r := tab[0] + tab[1] * LIMB;
      }
    }

    method GetBit(k: nat) returns (bit: nat)
      requires Valid()
      ensures Pow(2, k) > 0 && bit == Value() / Pow(2, k) % 2
    {
      BitOfLimb(tab[..len], k);
      var l, j := k / 32, k % 32;
      if l >= len {
        bit := 0;
      } else {
        bit := tab[l] / Pow(2, j) % 2;
      }
    }

    /** Whether any of the k lowest bits is set: the or of limbs, compared with zero. */
    method AnyBitBelow(k: nat) returns (any: bool)
      requires Valid()
      ensures Pow(2, k) > 0 && (any <==> Value() % Pow(2, k) != 0)
    {
      hide Pow;
      LowBitsOfLimbs(tab[..len], k);
      var l, j := k / 32, k % 32;
      any := false;
      var i := 0;
      var n := if l < len then l else len;
      while i < n
        invariant 0 <= i <= n
        invariant any <==> exists h :: 0 <= h < i && tab[h] != 0
      {
        any := any || tab[i] != 0;
        i := i + 1;
      }
      ValZeroIff(tab[..n]);
      assert any <==> Val(tab[..n]) != 0;
      if l < len {
        assert tab[..len][..l] == tab[..n];
        any := any || tab[l] % Pow(2, j) != 0;
      }
    }

    /** Multiply by 2^j, with a limb for the carry. */
    method ShiftBits(j: nat)
      requires Valid() && 1 <= j < 32 && len < tab.Length
      modifies this, tab
      ensures Valid() && Normal() && Value() == old(Value()) * Pow(2, j) && len <= old(len) + 1
    {
      hide Pow, Val;
      PowPositive(2, j);
      ghost var n := len;
      var carry := MpShl(tab, len, j, 0);
      tab[len] := carry;
      len := len + 1;
      assert tab[..len] == tab[..n] + [carry];
      ValSnoc(tab[..n], carry);
      Renorm();
    }

    /** Multiply by 2^shift: first by a bit shift, then by moving limbs. */
    method ShiftLeft(shift: nat)
      requires Valid() && Normal() && len + shift / 32 + 1 <= tab.Length
      modifies this, tab
      ensures Valid() && (old(Value()) > 0 ==> Normal()) && Value() == old(Value()) * Pow(2, shift)
      ensures len <= old(len) + shift / 32 + 1
    {
      hide Pow, Val;
      var l, j := shift / 32, shift % 32;
      ghost var v, c, p := Value(), Pow(2, j), Pow(LIMB, l);
      BitPower(shift);
      PowZero(2);
      PowZero(LIMB);
      if v > 0 {
        MulPositive(v, c);
      }
      assert (v * c) * p == v * (p * c);
      if j != 0 {
        ShiftBits(j);
      }
      assert Value() == v * c;
      if l > 0 {
        MoveUp(l);
      }
    }

    /** Copy the limbs up by l positions, from the last one on. */
    method CopyUp(l: nat)
      requires Valid() && l > 0 && len + l <= tab.Length
      modifies tab
      ensures tab[l..len + l] == old(tab[..len])
    {
      ghost var was := tab[..len];
      var i := len;
      while i > 0
        invariant 0 <= i <= len
        invariant tab[..i] == was[..i]
        invariant tab[i + l..len + l] == was[i..]
      {
        i := i - 1;
        assert tab[..i + 1][i] == was[i];
        tab[i + l] := tab[i];
        assert tab[i + l..len + l] == [was[i]] + was[i + 1..];
      }
    }

    /** Move the limbs up by l positions and clear the lowest ones. */
    method MoveUp(l: nat)
      requires Valid() && Normal() && l > 0 && len + l <= tab.Length
      modifies this, tab
      ensures Valid() && (old(Value()) > 0 ==> Normal())
      ensures Value() == old(Value()) * Pow(LIMB, l) && len == old(len) + l
    {
      hide Pow, Val;
      ghost var was := tab[..len];
      var n := len;
      CopyUp(l);
      var i := 0;
      while i < l
        invariant 0 <= i <= l && len == n
        invariant forall h :: 0 <= h < i ==> tab[h] == 0
        invariant tab[l..n + l] == was
      {
        tab[i] := 0;
        i := i + 1;
      }
      len := n + l;
      assert tab[..len][l..] == was;
      MovedUp(tab[..len], was, l);
    }

    /** Divide by 2^shift, dropping the bits below. */
    method ShiftRight(shift: nat)
      requires Valid() && shift / 32 < len
      modifies this, tab
      ensures Valid() && Pow(2, shift) > 0 && Value() == old(Value()) / Pow(2, shift)
      ensures len <= old(len) - shift / 32
      ensures old(Normal()) ==> Normal()
    {
      hide Pow, Val;
      var l, j := shift / 32, shift % 32;
      BitPower(shift);
      ghost var was := tab[..len];
      ghost var p, c := Pow(LIMB, l), Pow(2, j);
      DivDiv(Val(was), p, c);
      ValDrop(was, l);
      if l > 0 {
        len := len - l;
        var i, n := 0, len;
        while i < n
          invariant 0 <= i <= n && len == n
          invariant forall h :: 0 <= h < i ==> tab[h] == was[h + l]
          invariant forall h :: i <= h < n + l ==> tab[h] == was[h]
        {
          tab[i] := tab[i + l];
          i := i + 1;
        }
      }
      assert tab[..len] == was[l..];
      if j != 0 {
        PowPositive(2, j);
        ghost var w := Val(tab[..len]);
        var rem := MpShr(tab, len, j, 0);
        DivIs(w, c, Val(tab[..len]), rem);
        Renorm();
      } else {
        PowZero(2);
      }
    }

    /** Add one. The carry needs a limb only when every limb was all ones. */
    method AddOne()
      requires Valid() && Normal() && (len < tab.Length || Value() + 1 < Pow(LIMB, len))
      modifies this, tab
      ensures Valid() && Normal() && Value() == old(Value()) + 1
      ensures len <= old(len) + 1 && (old(Value()) + 1 < Pow(LIMB, old(len)) ==> len == old(len))
    {
      hide Pow, Val;
      ghost var n := len;
      ghost var v := Value();
      if len > 1 {
        TopBound(tab[..n]);
      }
      var a := MpAddUi(tab, 1, len);
      ValBound(tab[..n]);
      if a != 0 {
        assert a == 1;
        tab[len] := a;
        len := len + 1;
        assert tab[..len] == tab[..n] + [a];
        ValSnoc(tab[..n], a);
      } else {
        KeepsTop(tab[..n], v, n);
      }
    }

    /** round(value / 2^shift); a negative shift multiplies. Only zero can be left with leading zero limbs. */
    method ShrRound(shift: int, mode: Mode)
      requires Valid() && Normal()
      requires shift < 0 ==> len + (-shift) / 32 + 1 <= tab.Length
      modifies this, tab
      ensures Valid() && (old(Value()) > 0 || shift >= 0 ==> Normal())
      ensures shift < 0 ==> Value() == old(Value()) * Pow(2, -shift) && len <= old(len) + (-shift) / 32 + 1
      ensures shift >= 0 ==> Pow(2, shift) > 0 && Value() == RoundDiv(old(Value()), Pow(2, shift), mode)
      ensures shift >= 0 ==> len <= old(len)
    {
      hide Pow, Val, RoundDiv;
      if shift == 0 {
        PowZero(2);
        RoundByOne(Value(), mode);
      } else if shift < 0 {
        ShiftLeft(-shift);
      } else {
        RoundRight(shift, mode);
      }
    }

    method RoundRight(shift: nat, mode: Mode)
      requires Valid() && Normal() && shift > 0
      modifies this, tab
      ensures Valid() && Normal()
      ensures Pow(2, shift) > 0 && Value() == RoundDiv(old(Value()), Pow(2, shift), mode)
      ensures len <= old(len)
    {
      hide Pow, Val, RoundDiv;
      ghost var v, n := Value(), len;
      var addOne := Increment(shift, mode);
      var l := shift / 32;
      if l >= len {
        SmallQuotient(tab[..len], shift);
        len := 1;
        tab[0] := addOne;
        ValTwo(addOne, 0);
        assert tab[..len] == [addOne];
      } else {
        ValBound(tab[..len]);
        ShiftRight(shift);
        if addOne != 0 {
          RoomForCarry(v, n, shift, len);
          AddOne();
        }
      }
    }

    /** The rounding decision: 1 if the quotient by 2^shift is to be rounded up. */
    method Increment(shift: nat, mode: Mode) returns (addOne: nat)
      requires Valid() && shift > 0
      ensures addOne <= 1 && Pow(2, shift) > 0
      ensures RoundDiv(Value(), Pow(2, shift), mode) == Value() / Pow(2, shift) + addOne
    {
      hide Pow, Val, RoundDiv;
      ghost var v := Value();
      PowNext(2, shift - 1);
      PowPositive(2, shift - 1);
      PowPositive(2, shift);
      RoundByBits(v, Pow(2, shift - 1), Pow(2, shift), mode);
      addOne := 0;
      if mode != Truncate {
        var bit1 := GetBit(shift - 1);
        if bit1 != 0 {
          var bit2 := true;
          if mode == Nearest {
            bit2 := AnyBitBelow(shift - 1);
          }
          if bit2 {
            addOne := 1;
          } else {
            addOne := GetBit(shift);
          }
        }
      }
    }

    /** Multiply by a limb; a limb is appended only when the carry is not zero. */
    method MulSmall(b: u32)
      requires Valid() && Normal() && b > 0 && Value() * b < Pow(LIMB, tab.Length)
      modifies this, tab
      ensures Valid() && Normal() && Value() == old(Value()) * b
    {
      hide Pow, Val;
      ghost var n, v := len, Value();
      if v > 0 {
        TopLimb(tab[..n]);
        TopBound(tab[..n]);
      } else {
        ZeroLength(tab[..n]);
      }
      MulMonotone(1, b, v);
      var h := MpMul1(tab, len, b, 0);
      if h != 0 {
        assert len < tab.Length by {
          MulMonotone(1, h, Pow(LIMB, n));
        }
        tab[len] := h;
        len := len + 1;
        assert tab[..len] == tab[..n] + [h];
        ValSnoc(tab[..n], h);
      } else if v > 0 {
        StaysNormal(tab[..n], v);
      }
    }

    /** Multiply by a limb and add another one. */
    method MulAdd(base: u32, a: u32)
      requires Valid() && Normal() && len < tab.Length
      modifies this, tab
      ensures Valid() && Normal() && Value() == old(Value()) * base + a
    {
      hide Pow, Val;
      ghost var n := len;
      if tab[0] == 0 && len == 1 {
        ZeroLimb(tab[..len]);
        tab[0] := a;
        assert tab[..len] == [a];
        ValTwo(a, 0);
      } else {
        var h := MpMul1(tab, len, base, a);
        tab[len] := h;
        len := len + 1;
        assert tab[..len] == tab[..n] + [h];
        ValSnoc(tab[..n], h);
        Renorm();
      }
    }

    /** Divide by `d`, whose normalised form is `b`; returns the remainder. */
    method DivSmall(b: u32, bInv: u32, shift: nat, ghost d: nat) returns (r: u32)
      requires Valid() && shift < 32 && d > 0
      requires b >= 0x8000_0000 && bInv == Udiv1normInit(b) && b == d * Pow(2, shift)
      modifies this, tab
      ensures Valid() && Normal() && Value() == old(Value()) / d && r == old(Value()) % d && len <= old(len)
    {
      hide Pow, Val, Udiv1normInit;
      ghost var v := Value();
      r := MpDiv1norm(tab, len, b, 0, bInv, shift, d);
      DivIs(v, d, Val(tab[..len]), r);
      Renorm();
    }

    /** Set the lowest bit if `sticky`. */
    method OrSticky(sticky: bool)
      requires Valid() && Normal()
      modifies tab
      ensures Valid() && Normal() && len == old(len)
      ensures Value() == if sticky && old(Value()) % 2 == 0 then old(Value()) + 1 else old(Value())
    {
      hide Pow;
      ghost var was := tab[..len];
      var low := tab[0];
      LowestBit(was);
      if sticky {
        tab[0] := if low % 2 == 0 then low + 1 else low;
      }
      assert tab[..len][1..] == was[1..];
    }

    /** The position of the highest bit set. */
    method FloorLog2() returns (k: int)
      requires Valid() && Normal()
      ensures Value() == 0 <==> k == -1
      ensures Value() > 0 ==> 0 <= k < 32 * len && Pow(2, k) <= Value() < Pow(2, k + 1)
    {
      hide Pow, Val, NBits;
      var v := tab[len - 1];
      assert tab[..len] == tab[..len - 1] + [v];
      if v == 0 {
        ZeroLimb(tab[..len]);
        return -1;
      }
      TopBound(tab[..len]);
      PowPositive(LIMB, len - 1);
      HighestBit(tab[..len - 1], v);
      k := len * 32 - 1 - Clz32(v);
    }
  }

  lemma MovedUp(s: seq<u32>, was: seq<u32>, l: nat)
    requires was != [] && |s| == |was| + l
    requires forall h :: 0 <= h < l ==> s[h] == 0
    requires s[l..] == was
    requires |was| == 1 || was[|was| - 1] != 0
    ensures Val(s) == Val(was) * Pow(LIMB, l) && (Val(was) > 0 ==> s[|s| - 1] != 0)
  {
    hide Pow, Val;
    var zeros: seq<u32> := seq(l, _ => 0);
    assert s == zeros + was;
    ValConcat(zeros, was);
    ValZeros(l);
    if Val(was) > 0 {
      TopLimb(was);
    }
  }

  lemma ValTwo(a: u32, b: u32)
    ensures Val([a]) == a && Val([a, b]) == a + b * LIMB
  {
    assert [a][1..] == [] && [a, b][1..] == [b] && [b][1..] == [];
    assert Val([b]) == b + LIMB * Val([]);
  }

  lemma TooLong(s: seq<u32>)
    requires |s| > 2 && s[|s| - 1] != 0
    ensures Val(s) >= LIMB * LIMB
  {
    TopBound(s);
    PowMonotone(LIMB, 2, |s| - 1);
    assert Pow(LIMB, 0) == 1;
    assert Pow(LIMB, 1) == LIMB;
  }

  /** A number without leading zeros is at least the weight of its top limb. */
  lemma TopBound(s: seq<u32>)
    requires s != [] && s[|s| - 1] != 0
    ensures Val(s) >= Pow(LIMB, |s| - 1)
  {
    hide Pow, Val;
    var n := |s| - 1;
    assert s == s[..n] + [s[n]];
    ValSnoc(s[..n], s[n]);
    PowPositive(LIMB, n);
    MulMonotone(1, s[n], Pow(LIMB, n));
  }

  /** The top limb of a positive normalised number is not zero. */
  lemma TopLimb(s: seq<u32>)
    requires s != [] && Val(s) > 0 && (|s| == 1 || s[|s| - 1] != 0)
    ensures s[|s| - 1] != 0
  {
    if |s| == 1 {
      assert s == [s[0]];
      ValTwo(s[0], 0);
    }
  }

  /** A number that is not smaller than before, in as many limbs, keeps a non-zero top limb. */
  lemma KeepsTop(s: seq<u32>, v: nat, n: nat)
    requires n == |s| && n > 0 && Val(s) == v + 1
    ensures n > 1 && v >= Pow(LIMB, n - 1) ==> s[n - 1] != 0
  {
    hide Pow, Val;
    if n > 1 && s[n - 1] == 0 {
      assert s == s[..n - 1] + [0];
      ValSnoc(s[..n - 1], 0);
      ValBound(s[..n - 1]);
    }
  }

  lemma RoundByOne(n: nat, mode: Mode)
    ensures RoundDiv(n, 1, mode) == n
  {
  }

  /** After dropping at least one bit the increment never needs a limb beyond the old length. */
  lemma RoomForCarry(v: nat, n: nat, shift: nat, len: nat)
    requires shift > 0 && v < Pow(LIMB, n) && shift / 32 < n && len <= n - shift / 32
    ensures Pow(2, shift) > 0
    ensures len < n || v / Pow(2, shift) + 1 < Pow(LIMB, len)
  {
    hide Pow;
    PowPositive(2, shift);
    if len == n {
      PowMonotone(2, 1, shift);
      PowOne();
      PowMonotone(LIMB, 1, n);
      LimbPowOne();
      var s := Pow(2, shift);
      DivMod(v, s);
      MulMonotone(2, s, v / s);
      HalfBelow(v, v / s, Pow(LIMB, n));
    }
  }

  lemma LimbPowOne()
    ensures Pow(LIMB, 1) == LIMB
  {
    assert Pow(LIMB, 0) == 1;
  }

  lemma HalfBelow(v: nat, q: int, p: nat)
    requires 2 * q <= v < p && p >= 4
    ensures q + 1 < p
  {
  }

  lemma ZeroLimb(s: seq<u32>)
    requires s != [] && s[|s| - 1] == 0 && (|s| == 1 || s[|s| - 1] != 0)
    ensures Val(s) == 0
  {
    assert s == [0];
    ValTwo(0, 0);
  }

  lemma LowestBit(s: seq<u32>)
    requires s != []
    ensures Val(s) % 2 == s[0] % 2
  {
    var v := Val(s[1..]);
    assert LIMB * v == 2 * (0x8000_0000 * v);
  }

  /** A number that has grown keeps its top limb. */
  /** Zero has one limb. */
  lemma ZeroLength(s: seq<u32>)
    requires s != [] && Val(s) == 0 && (|s| == 1 || s[|s| - 1] != 0)
    ensures |s| == 1
  {
    hide Pow, Val;
    if |s| > 1 {
      TopBound(s);
      PowPositive(LIMB, |s| - 1);
    }
  }

  lemma StaysNormal(s: seq<u32>, v: nat)
    requires s != [] && Val(s) >= v >= Pow(LIMB, |s| - 1)
    ensures s[|s| - 1] != 0
  {
    hide Pow, Val;
    var n := |s| - 1;
    if s[n] == 0 {
      assert s == s[..n] + [0];
      ValSnoc(s[..n], 0);
      ValBound(s[..n]);
    }
  }

  /** The highest bit of a number from the leading zeros of its top limb. */
  lemma HighestBit(low: seq<u32>, v: u32)
    requires v > 0
    ensures var k := 32 * |low| + 31 - Clz32(v);
      Pow(2, k) <= Val(low + [v]) < Pow(2, k + 1)
  {
    hide Pow, Val, NBits;
    var n, c := |low|, Clz32(v);
    ValSnoc(low, v);
    ValBound(low);
    LimbPow(n);
    var p := Pow(LIMB, n);
    PowAdd(2, 32 * n, 31 - c);
    PowAdd(2, 32 * n, 32 - c);
    LeadingBits(v, c);
    MulMonotone(Pow(2, 31 - c), v, p);
    MulMonotone(v + 1, Pow(2, 32 - c), p);
    assert (v + 1) * p == v * p + p;
  }

  lemma LeadingBits(v: u32, c: nat)
    requires c < 32 && 0x8000_0000 <= v * Pow(2, c) < LIMB
    ensures Pow(2, 31 - c) <= v && v + 1 <= Pow(2, 32 - c)
  {
    hide Pow;
    Pow2Constants();
    PowPositive(2, c);
    PowAdd(2, c, 31 - c);
    PowAdd(2, c, 32 - c);
    var s := Pow(2, c);
    if v < Pow(2, 31 - c) {
      MulStrictlyMonotone(v, Pow(2, 31 - c), s);
    }
    if v >= Pow(2, 32 - c) {
      MulMonotone(Pow(2, 32 - c), v, s);
    }
  }
}
