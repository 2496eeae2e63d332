/** The packed form of a list of run lengths, and of an index into it. */
module RunFormat {
  import opened Bytes

  /** One item: two lengths of three bits, or one of seven, of five and eight, or of five and sixteen bits. A length is
      stored less one. */
  datatype Packed = Two(a: nat, b: nat) | Seven(a: nat) | Thirteen(a: nat) | TwentyOne(a: nat)

  predicate Fits(i: Packed) {
    match i
    case Two(a, b) => 1 <= a <= 8 && 1 <= b <= 8
    case Seven(a) => 1 <= a <= 0x80
    case Thirteen(a) => 1 <= a <= 0x2000
    case TwentyOne(a) => 1 <= a <= 0x20_0000
  }

  predicate AllFit(items: seq<Packed>) {
    forall k :: 0 <= k < |items| ==> Fits(items[k])
  }

  function Pack(i: Packed): (r: seq<u8>)
    requires Fits(i)
    ensures 1 <= |r| <= 3
  {
    match i
    case Two(a, b) => [(a - 1) * 8 + (b - 1)]
    case Seven(a) => [0x80 + (a - 1)]
    case Thirteen(a) => [0x40 + (a - 1) / 0x100, (a - 1) % 0x100]
    case TwentyOne(a) => [0x60 + (a - 1) / 0x1_0000, (a - 1) / 0x100 % 0x100, (a - 1) % 0x100]
  }

  function LengthsOf(i: Packed): (r: seq<nat>) {
    if i.Two? then [i.a, i.b] else [i.a]
  }

  function PackAll(items: seq<Packed>): (r: seq<u8>)
    requires AllFit(items)
  {
    if items == [] then [] else Pack(items[0]) + PackAll(items[1..])
  }

  /** The run lengths, one after the other. */
  function Lengths(items: seq<Packed>): (r: seq<nat>) {
    if items == [] then [] else LengthsOf(items[0]) + Lengths(items[1..])
  }

  function Sum(ls: seq<nat>): (r: nat) {
    if ls == [] then 0 else ls[0] + Sum(ls[1..])
  }

  /** x lies in the k-th run. */
  predicate InNth(ls: seq<nat>, k: nat, x: int)
    requires k < |ls|
  {
    Sum(ls[..k]) <= x < Sum(ls[..k + 1])
  }

  /** x lies in the second, fourth, ... run. */
  ghost predicate SecondRun(ls: seq<nat>, x: int) {
    exists k: nat :: k < |ls| && k % 2 == 1 && InNth(ls, k, x)
  }

  /** An index entry: 21 bits for the character and 3 for where in its block of 32 bytes the item stands. */
  function PackEntry(code: nat, off: nat): (r: seq<u8>)
    requires code < 0x20_0000 && off < 8
    ensures |r| == 3
  {
    var v := code + off * 0x20_0000;
    [v % 0x100, v / 0x100 % 0x100, v / 0x1_0000]
  }

  /** The index is made at the items js: one in each block of 32 bytes, after an even number of runs. */
  ghost predicate Stations(items: seq<Packed>, js: seq<nat>) {
    && AllFit(items) && Sum(Lengths(items)) < 0x20_0000
    && (forall k :: 0 <= k < |js| ==>
         && js[k] < |items| && |Lengths(items[..js[k]])| % 2 == 0
         && 32 * (k + 1) <= |PackAll(items[..js[k]])| < 32 * (k + 1) + 8)
    && (forall k, l :: 0 <= k < l < |js| ==> js[k] < js[l])
  }

  /** The entries of the stations from k on, and the end of the last run. */
  function PackIndex(items: seq<Packed>, js: seq<nat>, k: nat): (r: seq<u8>)
    requires Stations(items, js) && k <= |js|
    ensures |r| == 3 * (|js| - k) + 3
    decreases |js| - k
  {
    if k == |js| then PackEntry(Sum(Lengths(items)), 0)
    else
      PrefixSum(items, js[k]);
      PackEntry(Sum(Lengths(items[..js[k]])), |PackAll(items[..js[k]])| - 32 * (k + 1)) + PackIndex(items, js, k + 1)
  }

  lemma {:induction false} SumConcat(a: seq<nat>, b: seq<nat>)
    ensures Sum(a + b) == Sum(a) + Sum(b)
    decreases |a|
  {
    if a == [] {
      assert a + b == b;
    } else {
      assert (a + b)[1..] == a[1..] + b;
      SumConcat(a[1..], b);
    }
  }

  lemma {:induction false} LengthsConcat(a: seq<Packed>, b: seq<Packed>)
    ensures Lengths(a + b) == Lengths(a) + Lengths(b)
    decreases |a|
  {
    if a == [] {
      assert a + b == b;
    } else {
      assert (a + b)[1..] == a[1..] + b;
      LengthsConcat(a[1..], b);
    }
  }

  lemma {:induction false} PackConcat(a: seq<Packed>, b: seq<Packed>)
    requires AllFit(a) && AllFit(b)
    ensures PackAll(a + b) == PackAll(a) + PackAll(b)
    decreases |a|
  {
    if a == [] {
      assert a + b == b;
    } else {
      assert (a + b)[1..] == a[1..] + b;
      PackConcat(a[1..], b);
    }
  }

  lemma PrefixSum(items: seq<Packed>, j: nat)
    requires j <= |items|
    ensures Sum(Lengths(items[..j])) <= Sum(Lengths(items))
  {
    assert items == items[..j] + items[j..];
    LengthsConcat(items[..j], items[j..]);
    SumConcat(Lengths(items[..j]), Lengths(items[j..]));
  }
}
