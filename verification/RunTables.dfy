/** Compressed tables of character properties: run lengths in one to three bytes, and an index into them. */
module RunTables {
  import opened Bytes
  import opened CharSets
  import opened CharRanges
  import opened CaseFolding
  import opened RunFormat

  /** The run lengths packed in one item of the table, and the bytes it takes. */
  datatype Item = Item(lens: seq<nat>, size: nat)

  function Byte(table: seq<u8>, p: nat): (b: int)
    requires p < |table|
    ensures 0 <= b < 0x100
  {
    table[p]
  }

  /** The item at p fits in the table. */
  predicate ItemFits(table: seq<u8>, p: nat) {
    p < |table| &&
    (var b := table[p];
     if b < 64 || b >= 0x80 then true else if b < 0x60 then p + 1 < |table| else p + 2 < |table|)
  }

  function ItemAt(table: seq<u8>, p: nat): (r: Item)
    requires ItemFits(table, p)
    ensures 1 <= r.size <= 3 && p + r.size <= |table|
    ensures 1 <= |r.lens| <= 2 && forall i :: 0 <= i < |r.lens| ==> r.lens[i] >= 1
  {
    var b: int := table[p];
    if b < 64 then Item([b / 8 + 1, b % 8 + 1], 1)
    else if b >= 0x80 then Item([b - 0x80 + 1], 1)
    else if b < 0x60 then Item([(b - 0x40) * 0x100 + Byte(table, p + 1) + 1], 2)
    else Item([(b - 0x60) * 0x1_0000 + Byte(table, p + 1) * 0x100 + Byte(table, p + 2) + 1], 3)
  }

  /** The table from p on is a whole number of items. */
  predicate WellCut(table: seq<u8>, p: nat)
    decreases |table| - p
  {
    p == |table| || (ItemFits(table, p) && WellCut(table, p + ItemAt(table, p).size))
  }

  /** The boundaries between the runs from p on, the first of which starts at `code`. */
  function Bounds(table: seq<u8>, p: nat, code: nat): (r: seq<nat>)
    requires WellCut(table, p)
    decreases |table| - p
  {
    if p == |table| then []
    else
      var i := ItemAt(table, p);
      if |i.lens| == 1
      then [code + i.lens[0]] + Bounds(table, p + i.size, code + i.lens[0])
      else [code + i.lens[0], code + i.lens[0] + i.lens[1]]
           + Bounds(table, p + i.size, code + i.lens[0] + i.lens[1])
  }

  /** Runs alternate: x is in the set if the first boundary above it ends a run with the bit set. */
  predicate In(bounds: seq<nat>, bit: bool, x: int) {
    bounds != [] && if x < bounds[0] then bit else In(bounds[1..], !bit, x)
  }

  /** Where the last run ends. */
  function End(table: seq<u8>, p: nat, code: nat): (r: nat)
    requires WellCut(table, p)
    ensures r >= code
    decreases |table| - p
  {
    if p == |table| then code
    else
      var i := ItemAt(table, p);
      End(table, p + i.size, code + i.lens[0] + if |i.lens| == 1 then 0 else i.lens[1])
  }

  /** The property the table stands for. */
  predicate Member(table: seq<u8>, x: int)
    requires WellCut(table, 0)
  {
    x >= 0 && In(Bounds(table, 0, 0), false, x)
  }

  lemma InOne(code: nat, rest: seq<nat>, bit: bool, x: int)
    ensures In([code] + rest, bit, x) <==> if x < code then bit else In(rest, !bit, x)
  {
    assert ([code] + rest)[1..] == rest;
  }

  /** One item of the table, in terms of the rest. */
  lemma InItem(table: seq<u8>, p: nat, code: nat, bit: bool, x: int)
    requires WellCut(table, p) && p < |table|
    ensures var i := ItemAt(table, p); var c1 := code + i.lens[0];
      WellCut(table, p + i.size) &&
      (In(Bounds(table, p, code), bit, x) <==>
        if x < c1 then bit
        else if |i.lens| == 1 then In(Bounds(table, p + i.size, c1), !bit, x)
        else if x < c1 + i.lens[1] then !bit
        else In(Bounds(table, p + i.size, c1 + i.lens[1]), bit, x))
  {
    hide ItemAt, In;
    var i := ItemAt(table, p);
    var c1 := code + i.lens[0];
    if |i.lens| == 1 {
      InOne(c1, Bounds(table, p + i.size, c1), bit, x);
    } else {
      var c2 := c1 + i.lens[1];
      var rest := Bounds(table, p + i.size, c2);
      assert [c1, c2] + rest == [c1] + ([c2] + rest);
      InOne(c1, [c2] + rest, bit, x);
      InOne(c2, rest, !bit, x);
    }
  }

  lemma {:induction false} InBeyond(table: seq<u8>, p: nat, code: nat, bit: bool, x: int)
    requires WellCut(table, p) && x >= End(table, p, code)
    ensures !In(Bounds(table, p, code), bit, x)
    decreases |table| - p
  {
    hide ItemAt;
    if p < |table| {
      var i := ItemAt(table, p);
      InItem(table, p, code, bit, x);
      if |i.lens| == 1 {
        InBeyond(table, p + i.size, code + i.lens[0], !bit, x);
      } else {
        InBeyond(table, p + i.size, code + i.lens[0] + i.lens[1], bit, x);
      }
    }
  }

  // ---- the tables are the packed run lengths ----

  /** The decoder finds the item that was packed. */
  lemma ItemOfPacked(pre: seq<u8>, i: Packed, post: seq<u8>)
    requires Fits(i)
    ensures var table := pre + Pack(i) + post;
      ItemFits(table, |pre|) && ItemAt(table, |pre|) == Item(LengthsOf(i), |Pack(i)|)
  {
    var table := pre + Pack(i) + post;
    var p := |pre|;
    assert table[p] == Pack(i)[0];
    match i
    case Two(a, b) =>
    case Seven(a) =>
    case Thirteen(a) => assert table[p + 1] == Pack(i)[1];
    case TwentyOne(a) => assert table[p + 1] == Pack(i)[1] && table[p + 2] == Pack(i)[2];
  }

  /** What is packed is a whole number of items, whose lengths add up. */
  lemma {:induction false} PackedCut(pre: seq<u8>, items: seq<Packed>, code: nat)
    requires AllFit(items)
    ensures var table := pre + PackAll(items);
      WellCut(table, |pre|) && End(table, |pre|, code) == code + Sum(Lengths(items))
    decreases |items|
  {
    hide ItemAt, ItemFits, Pack;
    var table := pre + PackAll(items);
    if items != [] {
      var i := items[0];
      ItemOfPacked(pre, i, PackAll(items[1..]));
      assert table == pre + Pack(i) + PackAll(items[1..]);
      SumConcat(LengthsOf(i), Lengths(items[1..]));
      SumOfItem(i);
      PackedCut(pre + Pack(i), items[1..], code + Sum(LengthsOf(i)));
    }
  }

  lemma SumOfItem(i: Packed)
    ensures Sum(LengthsOf(i)) == LengthsOf(i)[0] + if i.Two? then LengthsOf(i)[1] else 0
  {
    SumCons(i.a, if i.Two? then [i.b] else []);
    if i.Two? {
      SumCons(i.b, []);
    }
  }

  lemma SumCons(a: nat, ls: seq<nat>)
    ensures Sum([a] + ls) == a + Sum(ls)
  {
    assert ([a] + ls)[1..] == ls;
  }

  /** x lies in a run with the bit set, when the first run starts at `code` with `bit`. */
  ghost predicate InBitRun(ls: seq<nat>, code: nat, bit: bool, x: int) {
    exists k: nat :: k < |ls| && bit == (k % 2 == 0) && InNth(ls, k, x - code)
  }

  lemma BitRunCons(a: nat, ls: seq<nat>, code: nat, bit: bool, x: int)
    requires x >= code
    ensures InBitRun([a] + ls, code, bit, x) <==> if x < code + a then bit else InBitRun(ls, code + a, !bit, x)
  {
    hide InNth;
    var all := [a] + ls;
    NthFirst(a, ls, x - code);
    if InBitRun(all, code, bit, x) {
      var k: nat :| k < |all| && bit == (k % 2 == 0) && InNth(all, k, x - code);
      if k > 0 {
        NthShift(a, ls, k - 1, x - code);
        var j: nat := k - 1;
        assert j < |ls| && !bit == (j % 2 == 0) && InNth(ls, j, x - (code + a));
        assert x >= code + a && InBitRun(ls, code + a, !bit, x);
      } else {
        assert x < code + a && bit;
      }
    }
    if x < code + a {
      if bit {
        var k: nat := 0;
        assert k < |all| && bit == (k % 2 == 0) && InNth(all, k, x - code);
        assert InBitRun(all, code, bit, x);
      }
    } else if InBitRun(ls, code + a, !bit, x) {
      var k: nat :| k < |ls| && !bit == (k % 2 == 0) && InNth(ls, k, x - (code + a));
      NthShift(a, ls, k, x - code);
      var j: nat := k + 1;
      assert j < |all| && bit == (j % 2 == 0) && InNth(all, j, x - code);
    }
  }

  lemma NthFirst(a: nat, ls: seq<nat>, x: int)
    ensures InNth([a] + ls, 0, x) <==> 0 <= x < a
  {
    var all := [a] + ls;
    assert all[..0] == [] && all[..1] == [a] + [];
    SumCons(a, []);
  }

  lemma NthShift(a: nat, ls: seq<nat>, k: nat, x: int)
    requires k < |ls|
    ensures InNth([a] + ls, k + 1, x) <==> InNth(ls, k, x - a)
    ensures InNth([a] + ls, k + 1, x) ==> x >= a
  {
    var all := [a] + ls;
    assert all[..k + 1] == [a] + ls[..k] && all[..k + 2] == [a] + ls[..k + 1];
    SumCons(a, ls[..k]);
    SumCons(a, ls[..k + 1]);
  }

  /** One item of the list, in terms of the rest. */
  lemma BitRunItem(i: Packed, ls: seq<nat>, code: nat, bit: bool, x: int)
    requires x >= code
    ensures InBitRun(LengthsOf(i) + ls, code, bit, x) <==>
      if x < code + i.a then bit
      else if !i.Two? then InBitRun(ls, code + i.a, !bit, x)
      else if x < code + i.a + i.b then !bit
      else InBitRun(ls, code + i.a + i.b, bit, x)
  {
    hide InBitRun;
    if i.Two? {
      assert LengthsOf(i) + ls == [i.a] + ([i.b] + ls);
      BitRunCons(i.a, [i.b] + ls, code, bit, x);
      if x >= code + i.a {
        BitRunCons(i.b, ls, code + i.a, !bit, x);
      }
    } else {
      BitRunCons(i.a, ls, code, bit, x);
    }
  }

  lemma FirstItem(items: seq<Packed>)
    requires AllFit(items) && items != []
    ensures PackAll(items) == Pack(items[0]) + PackAll(items[1..])
    ensures Lengths(items) == LengthsOf(items[0]) + Lengths(items[1..])
  {
  }

  lemma {:induction false} PackedIn(pre: seq<u8>, items: seq<Packed>, code: nat, bit: bool, x: int)
    requires AllFit(items) && x >= code
    ensures var table := pre + PackAll(items);
      WellCut(table, |pre|)
      && (In(Bounds(table, |pre|, code), bit, x) <==> InBitRun(Lengths(items), code, bit, x))
    decreases |items|
  {
    hide ItemAt, ItemFits, Pack, In, InBitRun, WellCut, Bounds, PackAll, Lengths;
    var table := pre + PackAll(items);
    PackedCut(pre, items, code);
    if items == [] {
      NoItems(pre, code, bit, x);
    } else {
      var i, rest := items[0], items[1..];
      FirstItem(items);
      ItemOfPacked(pre, i, PackAll(rest));
      assert table == pre + Pack(i) + PackAll(rest);
      NotAtEndOf(table, |pre|, i);
      InItem(table, |pre|, code, bit, x);
      BitRunItem(i, Lengths(rest), code, bit, x);
      var next := code + i.a + if i.Two? then i.b else 0;
      if x >= next {
        PackedIn(pre + Pack(i), rest, next, if i.Two? then bit else !bit, x);
      }
    }
  }

  lemma NotAtEndOf(table: seq<u8>, p: nat, i: Packed)
    requires ItemFits(table, p)
    ensures p < |table|
  {
  }

  lemma NoItems(pre: seq<u8>, code: nat, bit: bool, x: int)
    ensures var table := pre + PackAll([]);
      WellCut(table, |pre|) && !In(Bounds(table, |pre|, code), bit, x) && !InBitRun(Lengths([]), code, bit, x)
  {
  }

  /** The property of a packed table holds exactly for the characters of every second run. */
  lemma PackedMember(items: seq<Packed>, x: int)
    requires AllFit(items)
    ensures WellCut(PackAll(items), 0) && (Member(PackAll(items), x) <==> SecondRun(Lengths(items), x))
  {
    hide In, Bounds;
    assert [] + PackAll(items) == PackAll(items);
    PackedCut([], items, 0);
    if x >= 0 {
      PackedIn([], items, 0, false, x);
      BitIsSecond(Lengths(items), x);
    }
  }

  lemma BitIsSecond(ls: seq<nat>, x: int)
    ensures InBitRun(ls, 0, false, x) <==> SecondRun(ls, x)
  {
    hide Sum;
    if InBitRun(ls, 0, false, x) {
      var k: nat :| k < |ls| && false == (k % 2 == 0) && InNth(ls, k, x - 0);
      assert InNth(ls, k, x);
    }
    if SecondRun(ls, x) {
      var k: nat :| k < |ls| && k % 2 == 1 && InNth(ls, k, x);
      assert InNth(ls, k, x - 0);
    }
  }

  // ---- decoding the whole table ----

  /** What has been decoded and what is left make up the set. */
  ghost predicate Decoded(table: seq<u8>, points: seq<u32>, p: nat, code: nat, bit: bool)
  {
    && WellCut(table, 0) && WellCut(table, p)
    && Intervals(points) && (points != [] ==> points[|points| - 1] <= code)
    && forall x :: Member(table, x) <==> Contains(points, x) || (x >= code && In(Bounds(table, p, code), bit, x))
  }

  lemma DecodedStarts(table: seq<u8>)
    requires WellCut(table, 0)
    ensures Decoded(table, [], 0, 0, false)
  {
    hide In, Bounds;
  }

  /** The run [c0, c1) is added when its bit is set. */
  lemma DecodedRun(points: seq<u32>, c0: u32, c1: u32, bit: bool, x: int)
    requires |points| % 2 == 0 && (points != [] ==> points[|points| - 1] <= c0) && c0 <= c1
    ensures var now := if bit then points + [c0, c1] else points;
      Contains(now, x) <==> Contains(points, x) || (bit && c0 <= x < c1)
  {
    hide Contains;
    ContainsSnoc(points, c0, c1, x);
  }

  lemma DecodedSorted(points: seq<u32>, c0: u32, c1: u32, bit: bool)
    requires Intervals(points) && (points != [] ==> points[|points| - 1] <= c0) && c0 <= c1
    ensures var now := if bit then points + [c0, c1] else points;
      Intervals(now) && (now != [] ==> now[|now| - 1] <= c1)
  {
    GrowSorted(points, c0, c1);
  }

  /** The points after one item. */
  ghost function Grown(i: Item, points: seq<u32>, code: u32, bit: bool, c1: u32, c2: u32): (now: seq<u32>)
    requires 1 <= |i.lens|
  {
    if |i.lens| == 1 then (if bit then points + [code, c1] else points)
    else if bit then points + [code, c1] else points + [c1, c2]
  }

  /** The runs of one item. */
  lemma DecodedItem(table: seq<u8>, points: seq<u32>, p: nat, code: u32, bit: bool, c1: u32, c2: u32, now: seq<u32>)
    requires Decoded(table, points, p, code, bit) && p < |table|
    requires var i := ItemAt(table, p);
      && c1 == code + i.lens[0] && c2 == c1 + (if |i.lens| == 1 then 0 else i.lens[1])
      && now == Grown(i, points, code, bit, c1, c2)
    ensures var i := ItemAt(table, p);
      WellCut(table, p + i.size) && Decoded(table, now, p + i.size, c2, if |i.lens| == 1 then !bit else bit)
  {
    hide ItemAt, In, Bounds, Contains, Member, Grown, Sorted;
    var i := ItemAt(table, p);
    var next := if |i.lens| == 1 then !bit else bit;
    InItem(table, p, code, bit, 0);
    forall x
      ensures Member(table, x) <==> Contains(now, x) || (x >= c2 && In(Bounds(table, p + i.size, c2), next, x))
    {
      DecodedAt(table, points, p, code, bit, c1, c2, now, x);
    }
    GrownSorted(i, points, code, bit, c1, c2);
  }

  lemma GrownSorted(i: Item, points: seq<u32>, code: u32, bit: bool, c1: u32, c2: u32)
    requires 1 <= |i.lens| && code <= c1 <= c2
    requires Intervals(points) && (points != [] ==> points[|points| - 1] <= code)
    ensures var now := Grown(i, points, code, bit, c1, c2);
      Intervals(now) && (now != [] ==> now[|now| - 1] <= c2)
  {
    hide Intervals;
    DecodedSorted(points, code, c1, true);
    DecodedSorted(points, c1, c2, true);
  }

  /** The same for one character. */
  lemma DecodedAt(table: seq<u8>, points: seq<u32>, p: nat, code: u32, bit: bool, c1: u32, c2: u32, now: seq<u32>, x: int)
    requires WellCut(table, 0) && WellCut(table, p) && p < |table|
    requires |points| % 2 == 0 && (points != [] ==> points[|points| - 1] <= code)
    requires Member(table, x) <==> Contains(points, x) || (x >= code && In(Bounds(table, p, code), bit, x))
    requires var i := ItemAt(table, p);
      && c1 == code + i.lens[0] && c2 == c1 + (if |i.lens| == 1 then 0 else i.lens[1])
      && now == Grown(i, points, code, bit, c1, c2)
    ensures var i := ItemAt(table, p);
      WellCut(table, p + i.size)
      && (Member(table, x) <==>
            Contains(now, x) || (x >= c2 && In(Bounds(table, p + i.size, c2), if |i.lens| == 1 then !bit else bit, x)))
  {
    hide ItemAt, In, Bounds, Contains, Member;
    InItem(table, p, code, bit, x);
    DecodedRun(points, code, c1, true, x);
    DecodedRun(points, c1, c2, true, x);
  }

  lemma DecodedEnds(table: seq<u8>, points: seq<u32>, code: nat, bit: bool)
    requires Decoded(table, points, |table|, code, bit)
    ensures Intervals(points) && forall x :: Contains(points, x) <==> Member(table, x)
  {
    hide Contains, Member;
  }

  lemma EndGrows(table: seq<u8>, p: nat, code: nat)
    requires WellCut(table, p) && p < |table|
    ensures var i := ItemAt(table, p); var c2 := code + i.lens[0] + (if |i.lens| == 1 then 0 else i.lens[1]);
      WellCut(table, p + i.size) && End(table, p + i.size, c2) == End(table, p, code)
  {
    hide ItemAt;
  }

  /** Decode the table into a set. */
  method UnicodeProp1(cr: CharRange, table: seq<u8>)
    requires WellCut(table, 0) && cr.points == [] && End(table, 0, 0) <= 0x11_0000
    modifies cr
    ensures Intervals(cr.points) && forall x :: Contains(cr.points, x) <==> Member(table, x)
    ensures forall items, x :: AllFit(items) && table == PackAll(items) ==>
      (Contains(cr.points, x) <==> SecondRun(Lengths(items), x))
  {
    hide Decoded, WellCut, End, SecondRun, Lengths, PackAll, Contains, Member, AllFit;
    var p: nat, c: u32, bit := 0, 0, false;
    DecodedStarts(table);
    while p < |table|
      invariant p <= |table| && WellCut(table, p) && End(table, p, c) == End(table, 0, 0)
      invariant Decoded(table, cr.points, p, c, bit)
      decreases |table| - p
    {
      ghost var p0, c0, bit0, points0 := p, c, bit, cr.points;
      CutAt(table, p);
      EndGrows(table, p, c);
      var b := Byte(table, p);
      p := p + 1;
      if b < 64 {
        var start := c;
        c := c + (b / 8 + 1);
        if bit {
          cr.AddInterval(start, c);
        }
        bit := !bit;
        start := c;
        c := c + (b % 8 + 1);
        if bit {
          cr.AddInterval(start, c);
        }
        bit := !bit;
        DecodedItem(table, points0, p0, c0, bit0, start, c, cr.points);
      } else {
        var start := c;
        if b >= 0x80 {
          c := c + (b - 0x80 + 1);
        } else if b < 0x60 {
          c := c + ((b - 0x40) * 0x100 + Byte(table, p) + 1);
          p := p + 1;
        } else {
          c := c + ((b - 0x60) * 0x1_0000 + Byte(table, p) * 0x100 + Byte(table, p + 1) + 1);
          p := p + 2;
        }
        if bit {
          cr.AddInterval(start, c);
        }
        bit := !bit;
        DecodedItem(table, points0, p0, c0, bit0, c, c, cr.points);
      }
    }
    DecodedEnds(table, cr.points, c, bit);
    forall items, x | AllFit(items) && table == PackAll(items)
      ensures Contains(cr.points, x) <==> SecondRun(Lengths(items), x)
    {
      PackedMember(items, x);
    }
  }

  lemma CutAt(table: seq<u8>, p: nat)
    requires WellCut(table, p) && p < |table|
    ensures ItemFits(table, p)
  {
  }

  // ---- the index ----

  /** Follow the items from q to p: the code and the bit there. */
  function Walk(table: seq<u8>, q: nat, code: nat, bit: bool, p: nat): (r: (bool, nat, bool))
    requires WellCut(table, q)
    decreases |table| - q
  {
    if q == p then (true, code, bit)
    else if q == |table| then (false, 0, false)
    else
      var i := ItemAt(table, q);
      if |i.lens| == 1 then Walk(table, q + i.size, code + i.lens[0], !bit, p)
      else Walk(table, q + i.size, code + i.lens[0] + i.lens[1], bit, p)
  }

  /** Past a station on the way, membership can be decided from there. */
  lemma {:induction false} WalkKeeps(table: seq<u8>, q: nat, code: nat, bit: bool, p: nat, x: int)
    requires WellCut(table, q) && Walk(table, q, code, bit, p).0 && x >= Walk(table, q, code, bit, p).1
    ensures WellCut(table, p) && p <= |table|
    ensures Walk(table, q, code, bit, p).1 >= code
    ensures var w := Walk(table, q, code, bit, p);
      In(Bounds(table, q, code), bit, x) <==> In(Bounds(table, p, w.1), w.2, x)
    ensures End(table, p, Walk(table, q, code, bit, p).1) == End(table, q, code)
    decreases |table| - q
  {
    hide ItemAt, In;
    if q != p {
      var i := ItemAt(table, q);
      InItem(table, q, code, bit, x);
      EndGrows(table, q, code);
      if |i.lens| == 1 {
        WalkKeeps(table, q + i.size, code + i.lens[0], !bit, p, x);
      } else {
        WalkKeeps(table, q + i.size, code + i.lens[0] + i.lens[1], bit, p, x);
      }
    }
  }

  function Le24(index: seq<u8>, k: nat): (v: int)
    requires 3 * k + 3 <= |index|
    ensures 0 <= v < 0x100_0000
  {
    Byte(index, 3 * k) + Byte(index, 3 * k + 1) * 0x100 + Byte(index, 3 * k + 2) * 0x1_0000
  }

  /** The low 21 bits of an index entry are a code point, the others an offset in its block. */
  function CodeOf(index: seq<u8>, k: nat): (c: int)
    requires 3 * k + 3 <= |index|
  {
    Le24(index, k) % 0x20_0000
  }

  const BLOCK_LEN := 32

  function PosOf(index: seq<u8>, k: nat): (p: nat)
    requires 3 * k + 3 <= |index|
  {
    (k + 1) * BLOCK_LEN + Le24(index, k) / 0x20_0000
  }

  /** Every entry but the last stands at a boundary of the decoder with the run bit 0; the last one is the end. */
  ghost predicate IndexOk(table: seq<u8>, index: seq<u8>) {
    && WellCut(table, 0) && |index| % 3 == 0 && |index| >= 3
    && (forall k :: 0 <= k < |index| / 3 - 1 ==> Walk(table, 0, 0, false, PosOf(index, k)) == (true, CodeOf(index, k), false))
    && (forall k, l :: 0 <= k < l < |index| / 3 ==> CodeOf(index, k) < CodeOf(index, l))
    && Le24(index, |index| / 3 - 1) == End(table, 0, 0) < 0x20_0000
  }

  // ---- the index of a packed table ----

  /** One item of the walk. */
  lemma WalkItem(table: seq<u8>, q: nat, code: nat, bit: bool, p: nat, i: Packed)
    requires WellCut(table, q) && q < |table| && q != p
    requires Fits(i) && ItemAt(table, q) == Item(LengthsOf(i), |Pack(i)|)
    ensures WellCut(table, q + |Pack(i)|)
    ensures Walk(table, q, code, bit, p)
         == Walk(table, q + |Pack(i)|, code + Sum(LengthsOf(i)), if i.Two? then bit else !bit, p)
  {
    hide ItemAt, Pack, Sum;
    SumOfItem(i);
  }

  /** The first item of a prefix. */
  lemma PrefixItem(items: seq<Packed>, j: nat)
    requires AllFit(items) && 0 < j <= |items|
    ensures PackAll(items[..j]) == Pack(items[0]) + PackAll(items[1..][..j - 1])
    ensures Lengths(items[..j]) == LengthsOf(items[0]) + Lengths(items[1..][..j - 1])
  {
    hide Pack;
    assert items[..j][0] == items[0] && items[..j][1..] == items[1..][..j - 1];
  }

  /** Walking over the packed items comes to the end of each, with the runs passed counted. */
  lemma {:induction false} WalkPacked(pre: seq<u8>, items: seq<Packed>, j: nat, code: nat, bit: bool)
    requires AllFit(items) && j <= |items|
    ensures var table := pre + PackAll(items);
      WellCut(table, |pre|)
      && Walk(table, |pre|, code, bit, |pre| + |PackAll(items[..j])|)
         == (true, code + Sum(Lengths(items[..j])), bit == (|Lengths(items[..j])| % 2 == 0))
    decreases j
  {
    hide ItemAt, ItemFits, Pack, WellCut, Lengths, PackAll, Sum, Walk;
    var table := pre + PackAll(items);
    PackedCut(pre, items, code);
    if j == 0 {
      WalkNone(table, pre, items, code, bit);
    } else {
      var i, rest := items[0], items[1..];
      PrefixItem(items, j);
      FirstItem(items);
      ItemOfPacked(pre, i, PackAll(rest));
      assert table == pre + Pack(i) + PackAll(rest);
      NotAtEndOf(table, |pre|, i);
      SumConcat(LengthsOf(i), Lengths(rest[..j - 1]));
      WalkItem(table, |pre|, code, bit, |pre| + |PackAll(items[..j])|, i);
      WalkPacked(pre + Pack(i), rest, j - 1, code + Sum(LengthsOf(i)), if i.Two? then bit else !bit);
    }
  }

  lemma WalkNone(table: seq<u8>, pre: seq<u8>, items: seq<Packed>, code: nat, bit: bool)
    requires WellCut(table, |pre|)
    ensures PackAll(items[..0]) == [] && Lengths(items[..0]) == [] && Sum([]) == 0
    ensures Walk(table, |pre|, code, bit, |pre|) == (true, code, bit)
  {
  }

  /** An entry gives back the character and the offset packed in it. */
  lemma EntryOf(pre: seq<u8>, code: nat, off: nat, post: seq<u8>, k: nat)
    requires code < 0x20_0000 && off < 8 && |pre| == 3 * k
    ensures Le24(pre + PackEntry(code, off) + post, k) == code + off * 0x20_0000
  {
    var e := PackEntry(code, off);
    var index := pre + e + post;
    assert index[3 * k] == e[0] && index[3 * k + 1] == e[1] && index[3 * k + 2] == e[2];
  }

  /** The k-th entry is that of the k-th station, and the last one that of the end. */
  lemma {:induction false} EntryAt(pre: seq<u8>, items: seq<Packed>, js: seq<nat>, m: nat, k: nat)
    requires Stations(items, js) && m <= k <= |js| && |pre| == 3 * m
    ensures var v := Le24(pre + PackIndex(items, js, m), k);
      if k == |js| then v == Sum(Lengths(items))
      else v % 0x20_0000 == Sum(Lengths(items[..js[k]])) && v / 0x20_0000 == |PackAll(items[..js[k]])| - 32 * (k + 1)
    decreases k - m
  {
    hide Le24, PackEntry, Sum, Lengths, PackAll;
    if m == |js| {
      var e := PackEntry(Sum(Lengths(items)), 0);
      assert pre + PackIndex(items, js, m) == pre + e + [];
      EntryOf(pre, Sum(Lengths(items)), 0, [], k);
    } else {
      PrefixSum(items, js[m]);
      var code, off := Sum(Lengths(items[..js[m]])), |PackAll(items[..js[m]])| - 32 * (m + 1);
      var e, rest := PackEntry(code, off), PackIndex(items, js, m + 1);
      if m == k {
        assert pre + PackIndex(items, js, m) == pre + e + rest;
        EntryOf(pre, code, off, rest, k);
      } else {
        assert pre + PackIndex(items, js, m) == pre + e + rest;
        EntryAt(pre + e, items, js, m + 1, k);
      }
    }
  }

  /** More items have longer runs. */
  lemma StrictPrefixSum(items: seq<Packed>, i: nat, j: nat)
    requires AllFit(items) && i < j <= |items|
    ensures Sum(Lengths(items[..i])) < Sum(Lengths(items[..j]))
  {
    var front, back := items[..i], items[i..j];
    assert items[..j] == front + back;
    LengthsConcat(front, back);
    SumConcat(Lengths(front), Lengths(back));
    SumConcat(LengthsOf(back[0]), Lengths(back[1..]));
    SumOfItem(back[0]);
  }

  /** The index of a packed table is a correct index for it. */
  lemma PackedIndexOk(items: seq<Packed>, js: seq<nat>)
    requires Stations(items, js)
    ensures IndexOk(PackAll(items), PackIndex(items, js, 0))
  {
    hide PackAll, Lengths, Sum, Walk, WellCut, End, Le24;
    var table, index := PackAll(items), PackIndex(items, js, 0);
    assert [] + table == table && [] + index == index;
    PackedCut([], items, 0);
    EntryAt([], items, js, 0, |js|);
    forall k | 0 <= k < |index| / 3 - 1
      ensures Walk(table, 0, 0, false, PosOf(index, k)) == (true, CodeOf(index, k), false)
    {
      EntryAt([], items, js, 0, k);
      WalkPacked([], items, js[k], 0, false);
    }
    forall k, l | 0 <= k < l < |index| / 3
      ensures CodeOf(index, k) < CodeOf(index, l)
    {
      EntryAt([], items, js, 0, k);
      EntryAt([], items, js, 0, l);
      assert items[..|items|] == items;
      StrictPrefixSum(items, js[k], if l == |js| then |items| else js[l]);
    }
  }

  /** The place from which to decode for c; -1 when c lies beyond the table. */
  method GetIndexPos(c: nat, index: seq<u8>, ghost table: seq<u8>) returns (pos: int, code: nat)
    requires IndexOk(table, index)
    ensures pos < 0 ==> c >= End(table, 0, 0)
    ensures pos >= 0 ==> code <= c < End(table, 0, 0) && Walk(table, 0, 0, false, pos) == (true, code, false)
  {
    hide Walk, End, WellCut, Le24;
    var n := |index| / 3;
    var lo := 0;
    LastCode(table, index);
    if c < CodeOf(index, 0) {
      FirstBeforeLast(table, index);
      WalkNowhere(table);
      return 0, 0;
    }
    var hi := n - 1;
    if c >= Le24(index, hi) {
      return -1, 0;
    }
    while hi - lo > 1
      invariant 0 <= lo < hi <= n - 1
      invariant CodeOf(index, lo) <= c < CodeOf(index, hi)
      decreases hi - lo
    {
      var idx := (hi + lo) / 2;
      if c < CodeOf(index, idx) {
        hi := idx;
      } else {
        lo := idx;
      }
    }
    return PosOf(index, lo), CodeOf(index, lo);
  }

  lemma LastCode(table: seq<u8>, index: seq<u8>)
    requires IndexOk(table, index)
    ensures CodeOf(index, |index| / 3 - 1) == End(table, 0, 0) == Le24(index, |index| / 3 - 1)
  {
    hide Le24, End, Walk, WellCut;
  }

  lemma FirstBeforeLast(table: seq<u8>, index: seq<u8>)
    requires IndexOk(table, index)
    ensures CodeOf(index, 0) <= End(table, 0, 0)
  {
    hide Le24, End, Walk, WellCut;
    LastCode(table, index);
  }

  lemma WalkNowhere(table: seq<u8>)
    requires WellCut(table, 0)
    ensures Walk(table, 0, 0, false, 0) == (true, 0, false)
  {
  }

  /** Looking a character up through the index agrees with decoding the whole table. */
  method IsInTable(c: nat, table: seq<u8>, index: seq<u8>) returns (r: bool)
    requires IndexOk(table, index)
    ensures r <==> Member(table, c)
    ensures forall items :: AllFit(items) && table == PackAll(items) ==> (r <==> SecondRun(Lengths(items), c))
  {
    hide Walk, WellCut, End, In, Bounds, IndexOk, SecondRun, Lengths, PackAll, AllFit;
    IndexCut(table, index);
    forall items | AllFit(items) && table == PackAll(items)
      ensures Member(table, c) <==> SecondRun(Lengths(items), c)
    {
      PackedMember(items, c);
    }
    var pos: int, code: nat := GetIndexPos(c, index, table);
    if pos < 0 {
      InBeyond(table, 0, 0, false, c);
      return false;
    }
    WalkKeeps(table, 0, 0, false, pos, c);
    var p: nat := pos;
    var bit := false;
    while true
      invariant p <= |table| && WellCut(table, p) && code <= c < End(table, p, code)
      invariant Member(table, c) <==> In(Bounds(table, p, code), bit, c)
      decreases |table| - p
    {
      NotAtEnd(table, p, code, c);
      CutAt(table, p);
      InItem(table, p, code, bit, c);
      EndGrows(table, p, code);
      var b := Byte(table, p);
      p := p + 1;
      if b < 64 {
        code := code + (b / 8 + 1);
        if c < code {
          return bit;
        }
        bit := !bit;
        code := code + (b % 8 + 1);
      } else if b >= 0x80 {
        code := code + (b - 0x80 + 1);
      } else if b < 0x60 {
        code := code + ((b - 0x40) * 0x100 + Byte(table, p) + 1);
        p := p + 1;
      } else {
        code := code + ((b - 0x60) * 0x1_0000 + Byte(table, p) * 0x100 + Byte(table, p + 1) + 1);
        p := p + 2;
      }
      if c < code {
        return bit;
      }
      bit := !bit;
    }
  }

  lemma IndexCut(table: seq<u8>, index: seq<u8>)
    requires IndexOk(table, index)
    ensures WellCut(table, 0)
  {
  }

  lemma NotAtEnd(table: seq<u8>, p: nat, code: nat, c: nat)
    requires WellCut(table, p) && p <= |table| && code <= c < End(table, p, code)
    ensures p < |table|
  {
  }
}
