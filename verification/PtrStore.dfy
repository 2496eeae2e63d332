/** The store that hands out small numbers for Go values held by the engine. */
module PtrStore {
  import opened Bytes

  const ID_MAX: u32 := 0xffff_ffff

  datatype Ref<P> = Ref(ptr: P, count: int)

  /** The fields of a store. */
  datatype State<P> = State(index: u32, id2ptr: map<u32, Ref<P>>, ptr2id: map<P, u32>)

  datatype Found<P> = Missing | Found(ptr: P)

  datatype Op<P> = Register(p: P) | Remove(id: u32)

  /** The two maps are inverses and counts are positive. */
  ghost predicate Maps<P(!new)>(s: State<P>) {
    && (forall i :: i in s.id2ptr ==>
         s.id2ptr[i].ptr in s.ptr2id && s.ptr2id[s.id2ptr[i].ptr] == i && s.id2ptr[i].count >= 1)
    && (forall p :: p in s.ptr2id ==> s.ptr2id[p] in s.id2ptr && s.id2ptr[s.ptr2id[p]].ptr == p)
  }

  /** Besides, all ids up to the index are taken, and id 0 is not. */
  ghost predicate Inv<P(!new)>(s: State<P>) {
    && Maps(s)
    && (forall i: u32 :: 1 <= i <= s.index ==> i in s.id2ptr)
    && 0 !in s.id2ptr
  }

  /** The least positive id that is not taken. */
  ghost predicate LeastFree<P>(m: map<u32, Ref<P>>, id: u32) {
    id >= 1 && id !in m && forall i: u32 :: 1 <= i < id ==> i in m
  }

  /** Every positive id is taken. */
  ghost predicate Full<P>(m: map<u32, Ref<P>>) {
    forall i: u32 :: i >= 1 ==> i in m
  }

  /** How many 32-bit increments of the index, less one, lead to `id`. */
  function Ahead(index: u32, id: u32): (r: u32) {
    (id - index - 1) % 0x1_0000_0000
  }

  /** The first free id after the index, in the order of the wrapping increment. */
  ghost predicate FirstAfter<P>(m: map<u32, Ref<P>>, index: u32, id: u32) {
    id !in m && forall i: u32 :: Ahead(index, i) < Ahead(index, id) ==> i in m
  }

  /** What one call does to the store. */
  ghost predicate Next<P(!new)>(s: State<P>, op: Op<P>, t: State<P>) {
    match op
    case Register(p) =>
      if p in s.ptr2id && s.ptr2id[p] in s.id2ptr then
        var id := s.ptr2id[p];
        t == s.(id2ptr := s.id2ptr[id := s.id2ptr[id].(count := s.id2ptr[id].count + 1)])
      else
        && p in t.ptr2id
        && var id := t.ptr2id[p];
        && FirstAfter(s.id2ptr, s.index, id)
        && t == State(id, s.id2ptr[id := Ref(p, 1)], s.ptr2id[p := id])
    case Remove(id) =>
      if id !in s.id2ptr then t == s
      else if s.id2ptr[id].count > 1 then
        t == s.(id2ptr := s.id2ptr[id := s.id2ptr[id].(count := s.id2ptr[id].count - 1)])
      else
        t == State(if id <= s.index then (id - 1) % 0x1_0000_0000 else s.index, s.id2ptr - {id},
                   s.ptr2id - {s.id2ptr[id].ptr})
  }

  /** Every call keeps the maps inverse. */
  lemma MapsKept<P(!new)>(s: State<P>, op: Op<P>, t: State<P>)
    requires Maps(s) && Next(s, op, t)
    ensures Maps(t)
  {
    hide FirstAfter;
    if op.Register? && !(op.p in s.ptr2id && s.ptr2id[op.p] in s.id2ptr) {
      FirstIsFree(s.id2ptr, s.index, t.ptr2id[op.p]);
    }
  }

  lemma FirstIsFree<P>(m: map<u32, Ref<P>>, index: u32, id: u32)
    requires FirstAfter(m, index, id)
    ensures id !in m
  {
  }

  /** When all ids up to the index are taken and 0 is not, the first free id is the least positive one, or 0 when there
      is none. */
  lemma FirstIsLeast<P(!new)>(s: State<P>, id: u32)
    requires Inv(s) && FirstAfter(s.id2ptr, s.index, id)
    ensures if Full(s.id2ptr) then id == 0 else LeastFree(s.id2ptr, id)
  {
    var m := s.id2ptr;
    if id == 0 {
      forall i: u32 | i > s.index
        ensures i in m
      {
        AheadBefore(s.index, i, 0);
      }
    } else {
      forall i: u32 | 1 <= i < id
        ensures i in m
      {
        if i > s.index {
          AheadBefore(s.index, i, id);
        }
      }
    }
  }

  lemma AheadBefore(index: u32, i: u32, id: u32)
    requires index < i && (id == 0 || i < id)
    ensures Ahead(index, i) < Ahead(index, id)
  {
    var x: int, y: int, z: int := index, i, id;
    assert (y - x - 1) % 0x1_0000_0000 == y - x - 1;
    if z == 0 {
      assert (z - x - 1) % 0x1_0000_0000 == 0x1_0000_0000 - x - 1;
    } else {
      assert (z - x - 1) % 0x1_0000_0000 == z - x - 1;
    }
  }

  /** A new value meets a store with no positive id left. */
  ghost predicate Overflows<P(!new)>(s: State<P>, op: Op<P>) {
    op.Register? && op.p !in s.ptr2id && Full(s.id2ptr)
  }

  /** A call keeps the invariant exactly when it does not register a new value in a full store. */
  lemma NextKeeps<P(!new)>(s: State<P>, op: Op<P>, t: State<P>)
    requires Inv(s) && Next(s, op, t)
    ensures Inv(t) <==> !Overflows(s, op)
  {
    hide FirstAfter;
    MapsKept(s, op, t);
    if op.Register? && op.p !in s.ptr2id {
      FirstIsLeast(s, t.ptr2id[op.p]);
    }
  }

  // ---- counting ids ----

  lemma {:induction false} SmallIds(keys: set<u32>, n: u32)
    requires forall i: u32 :: 1 <= i <= n ==> i in keys
    ensures |keys| >= n
    decreases n
  {
    if n > 0 {
      var rest := keys - {n};
      SmallIds(rest, n - 1);
      assert keys == rest + {n};
    }
  }

  /** With all positive ids taken there are 2^32 - 1 of them, and with 0 as well all 2^32 are. */
  lemma AllTaken(keys: set<u32>)
    requires forall i: u32 :: i >= 1 ==> i in keys
    ensures |keys - {0}| >= ID_MAX
    ensures 0 in keys ==> |keys| >= 0x1_0000_0000
  {
    SmallIds(keys - {0}, ID_MAX);
    if 0 in keys {
      assert keys == (keys - {0}) + {0};
    }
  }

  // ---- runs ----

  const EMPTY_INDEX: u32 := 0

  ghost function Empty<P>(): State<P> {
    State(EMPTY_INDEX, map[], map[])
  }

  /** A run of calls from the empty store: states[i] is the store before the i-th call. */
  ghost predicate Run<P(!new)>(states: seq<State<P>>, ops: seq<Op<P>>) {
    && |states| == |ops| + 1 && states[0] == Empty()
    && forall i :: 0 <= i < |ops| ==> Next(states[i], ops[i], states[i + 1])
  }

  lemma {:induction false} RunKeeps<P(!new)>(states: seq<State<P>>, ops: seq<Op<P>>, n: nat)
    requires Run(states, ops) && n < |states|
    ensures Maps(states[n])
    decreases n
  {
    hide Next;
    if n > 0 {
      RunKeeps(states, ops, n - 1);
      assert Next(states[n - 1], ops[n - 1], states[n - 1 + 1]);
      MapsKept(states[n - 1], ops[n - 1], states[n]);
    }
  }

  /** How much a call changes the count of p. */
  ghost function Change<P(!new)>(s: State<P>, op: Op<P>, p: P): int {
    match op
    case Register(q) => if q == p then 1 else 0
    case Remove(id) => if id in s.id2ptr && s.id2ptr[id].ptr == p then -1 else 0
  }

  /** Registrations of p minus removals of p. */
  ghost function Net<P(!new)>(states: seq<State<P>>, ops: seq<Op<P>>, n: nat, p: P): int
    requires n <= |ops| < |states|
  {
    if n == 0 then 0 else Net(states, ops, n - 1, p) + Change(states[n - 1], ops[n - 1], p)
  }

  ghost function CountOf<P(!new)>(s: State<P>, p: P): int
    requires Maps(s)
  {
    if p in s.ptr2id then s.id2ptr[s.ptr2id[p]].count else 0
  }

  lemma NextCounts<P(!new)>(s: State<P>, op: Op<P>, t: State<P>, p: P)
    requires Maps(s) && Next(s, op, t)
    ensures Maps(t) && CountOf(t, p) == CountOf(s, p) + Change(s, op, p)
  {
    hide FirstAfter;
    MapsKept(s, op, t);
    if op.Register? && op.p !in s.ptr2id {
      FirstIsFree(s.id2ptr, s.index, t.ptr2id[op.p]);
    }
  }

  /** In every run the count of a value is the number of its registrations minus that of its removals. */
  lemma {:induction false} CountsBalance<P(!new)>(states: seq<State<P>>, ops: seq<Op<P>>, n: nat, p: P)
    requires Run(states, ops) && n < |states|
    ensures Maps(states[n]) && CountOf(states[n], p) == Net(states, ops, n, p)
    decreases n
  {
    hide Next, Maps;
    RunKeeps(states, ops, n);
    if n > 0 {
      assert Next(states[n - 1], ops[n - 1], states[n - 1 + 1]);
      CountsBalance(states, ops, n - 1, p);
      NextCounts(states[n - 1], ops[n - 1], states[n], p);
    }
  }

  /** The largest number of values alive at the same time up to state n. */
  ghost function Peak<P(!new)>(states: seq<State<P>>, n: nat): nat
    requires n < |states|
  {
    var here := |states[n].id2ptr|;
    if n == 0 then here else
    var before := Peak(states, n - 1);
    if before > here then before else here
  }

  /** An overflowing call leaves all 2^32 ids taken. */
  lemma OverflowFills<P(!new)>(s: State<P>, op: Op<P>, t: State<P>)
    requires Inv(s) && Next(s, op, t) && Overflows(s, op)
    ensures |t.id2ptr| >= 0x1_0000_0000 && t.index == 0 && op.p in t.ptr2id && t.ptr2id[op.p] == 0
  {
    hide FirstAfter;
    FirstIsLeast(s, t.ptr2id[op.p]);
    AllTaken(t.id2ptr.Keys);
  }

  /** As long as fewer than 2^32 values were alive at a time, the invariant holds. */
  lemma {:induction false} RoomyRunKeeps<P(!new)>(states: seq<State<P>>, ops: seq<Op<P>>, n: nat)
    requires Run(states, ops) && n < |states| && Peak(states, n) < 0x1_0000_0000
    ensures Inv(states[n])
    decreases n
  {
    hide Next, Inv, Overflows;
    if n == 0 {
      EmptyInv<P>();
    } else {
      assert Next(states[n - 1], ops[n - 1], states[n - 1 + 1]);
      RoomyRunKeeps(states, ops, n - 1);
      NextKeeps(states[n - 1], ops[n - 1], states[n]);
      if Overflows(states[n - 1], ops[n - 1]) {
        OverflowFills(states[n - 1], ops[n - 1], states[n]);
        assert false;
      }
    }
  }

  lemma EmptyInv<P(!new)>()
    ensures Inv(Empty<P>())
  {
  }

  lemma NewIdWithinLive<P(!new)>(s: State<P>, op: Op<P>, t: State<P>, i: u32)
    requires Inv(s) && Next(s, op, t) && Inv(t) && i in t.id2ptr
    ensures i in s.id2ptr || i <= |t.id2ptr|
  {
    hide FirstAfter;
    if i !in s.id2ptr {
      assert op.Register? && op.p !in s.ptr2id;
      FirstIsLeast(s, i);
      assert forall j: u32 :: 1 <= j <= i ==> j in t.id2ptr.Keys;
      SmallIds(t.id2ptr.Keys, i);
    }
  }

  lemma InvIdPositive<P(!new)>(s: State<P>, i: u32)
    requires Inv(s) && i in s.id2ptr
    ensures i >= 1
  {
  }

  /** Ids never exceed the peak number of live values, and the id 0 is handed out only once 2^32 values were alive. */
  lemma {:induction false} IdsWithinPeak<P(!new)>(states: seq<State<P>>, ops: seq<Op<P>>, n: nat, i: u32)
    requires Run(states, ops) && n < |states| && i in states[n].id2ptr
    ensures i <= Peak(states, n)
    ensures i == 0 ==> Peak(states, n) >= 0x1_0000_0000
    decreases n
  {
    hide Next, Inv;
    if Peak(states, n) < 0x1_0000_0000 {
      RoomyRunKeeps(states, ops, n);
      InvIdPositive(states[n], i);
      if n > 0 {
        RoomyRunKeeps(states, ops, n - 1);
        assert Next(states[n - 1], ops[n - 1], states[n - 1 + 1]);
        NewIdWithinLive(states[n - 1], ops[n - 1], states[n], i);
        if i in states[n - 1].id2ptr {
          IdsWithinPeak(states, ops, n - 1, i);
        }
      }
    }
  }

  // ---- the store ----

  class Store<P(==, !new)> {
    var index: u32
    var id2ptr: map<u32, Ref<P>>
    var ptr2id: map<P, u32>

    constructor ()
      ensures Model() == Empty()
    {
      index, id2ptr, ptr2id := 0, map[], map[];
    }

    ghost function Model(): State<P>
      reads this
    {
      State(index, id2ptr, ptr2id)
    }

    /** Count one more use of a value, or give it a new id. With all 2^32 ids taken the search of the source does not
        end. */
    method Register(p: P) returns (id: u32)
      requires Maps(Model())
      requires p in ptr2id || |id2ptr| < 0x1_0000_0000
      modifies this
      ensures Maps(Model()) && Next(old(Model()), Op.Register(p), Model())
      ensures p in ptr2id && ptr2id[p] == id
      ensures old(Inv(Model())) && !old(Overflows(Model(), Op.Register(p))) ==> Inv(Model()) && id >= 1
    {
      hide Inv, FirstAfter, Overflows;
      ghost var s := Model();
      if p in ptr2id {
        id := ptr2id[p];
        KnownId(s, p);
        id2ptr := id2ptr[id := id2ptr[id].(count := id2ptr[id].count + 1)];
      } else {
        id := NextIndex(s);
        id2ptr := id2ptr[index := Ref(p, 1)];
        ptr2id := ptr2id[p := index];
      }
      MapsKept(s, Op.Register(p), Model());
      if Inv(s) {
        NextKeeps(s, Op.Register(p), Model());
        if Inv(Model()) {
          InvIdPositive(Model(), id);
        }
      }
    }

    /** The loop that advances the index, with its 32-bit increment, to an id that is not taken. */
    method NextIndex(ghost s: State<P>) returns (id: u32)
      requires s == Model() && |id2ptr| < 0x1_0000_0000
      modifies this`index
      ensures id == index && FirstAfter(id2ptr, s.index, id)
    {
      var found := false;
      ghost var steps: nat := 0;
      while !found
        invariant id2ptr == s.id2ptr && steps <= 0x1_0000_0000
        invariant index == (s.index + steps) % 0x1_0000_0000
        invariant !found ==> forall i: u32 :: Ahead(s.index, i) < steps ==> i in id2ptr
        invariant found ==> FirstAfter(id2ptr, s.index, index)
        decreases 0x1_0000_0000 - steps, !found
      {
        if steps == 0x1_0000_0000 {
          AllTaken(id2ptr.Keys);
        }
        AheadSteps(s.index, steps);
        index := (index + 1) % 0x1_0000_0000;
        steps := steps + 1;
        found := index !in id2ptr;
      }
      id := index;
    }

    /** The value behind an id, if it is taken. */
    method Lookup(id: u32) returns (r: Found<P>)
      requires Maps(Model())
      ensures r.Found? <==> id in id2ptr
      ensures forall p :: r == Found(p) <==> p in ptr2id && ptr2id[p] == id
    {
      if id in id2ptr {
        r := Found(id2ptr[id].ptr);
      } else {
        r := Missing;
      }
    }

    /** Count one use less; the last one frees the id. */
    method Remove(id: u32)
      requires Maps(Model())
      modifies this
      ensures Maps(Model()) && Next(old(Model()), Op.Remove(id), Model())
    {
      hide Maps;
      ghost var s := Model();
      if id in id2ptr {
        var r := id2ptr[id];
        id2ptr := id2ptr[id := r.(count := r.count - 1)];
        if r.count - 1 > 0 {
          MapsKept(s, Op.Remove(id), Model());
          return;
        }
        id2ptr := id2ptr - {id};
        ptr2id := ptr2id - {r.ptr};
        if id <= index {
          index := (id - 1) % 0x1_0000_0000;
        }
        assert id2ptr == s.id2ptr - {id};
      }
      MapsKept(s, Op.Remove(id), Model());
    }
  }

  /** `steps` increments lead `steps - 1` ids ahead. */
  lemma AheadSteps(index: u32, steps: nat)
    requires steps < 0x1_0000_0000
    ensures ((index + steps) % 0x1_0000_0000 + 1) % 0x1_0000_0000 == (index + steps + 1) % 0x1_0000_0000
    ensures Ahead(index, (index + steps + 1) % 0x1_0000_0000) == steps
    ensures forall i: u32 :: Ahead(index, i) == steps ==> i == (index + steps + 1) % 0x1_0000_0000
  {
  }

  lemma KnownId<P(!new)>(s: State<P>, p: P)
    requires Maps(s) && p in s.ptr2id
    ensures s.ptr2id[p] in s.id2ptr
  {
  }

  /** In every full store, whatever its index, a new value gets the id 0, which is no positive id. */
  lemma FullStoreWraps<P(!new)>(s: State<P>, p: P, t: State<P>)
    requires Inv(s) && Full(s.id2ptr) && p !in s.ptr2id && Next(s, Op.Register(p), t)
    ensures p in t.ptr2id && t.ptr2id[p] == 0 == t.index && 0 in t.id2ptr && t.id2ptr[0] == Ref(p, 1)
    ensures |s.id2ptr| == ID_MAX
  {
    hide FirstAfter;
    FirstIsLeast(s, t.ptr2id[p]);
    AllTaken(s.id2ptr.Keys);
    IdsBounded(s.id2ptr.Keys, ID_MAX);
    assert s.id2ptr.Keys - {0} == s.id2ptr.Keys;
  }

  lemma {:induction false} IdsBounded(keys: set<u32>, n: u32)
    requires forall i :: i in keys ==> 1 <= i <= n
    ensures |keys| <= n
    decreases n
  {
    if n == 0 {
      assert keys == {};
    } else {
      var rest := keys - {n};
      IdsBounded(rest, n - 1);
      assert keys <= rest + {n};
      CardinalityOfPart(keys, rest + {n});
    }
  }

  lemma {:induction false} CardinalityOfPart(a: set<u32>, b: set<u32>)
    requires a <= b
    ensures |a| <= |b|
    decreases |a|
  {
    if a != {} {
      var x :| x in a;
      CardinalityOfPart(a - {x}, b - {x});
    }
  }

  /** A new value gets a positive id, the least free one, exactly when fewer than 2^32 - 1 values are alive. */
  lemma FreshIdExists<P(!new)>(s: State<P>, p: P, t: State<P>)
    requires Inv(s) && p !in s.ptr2id && Next(s, Op.Register(p), t)
    ensures p in t.ptr2id && (t.ptr2id[p] >= 1 <==> |s.id2ptr| < ID_MAX)
    ensures t.ptr2id[p] >= 1 ==> LeastFree(s.id2ptr, t.ptr2id[p])
  {
    hide FirstAfter;
    FirstIsLeast(s, t.ptr2id[p]);
    SizeOfFull(s.id2ptr);
  }

  /** A store without the id 0 is full exactly when it has 2^32 - 1 ids. */
  lemma SizeOfFull<P>(m: map<u32, Ref<P>>)
    requires 0 !in m
    ensures Full(m) <==> |m| >= ID_MAX
  {
    assert |m| == |m.Keys|;
    if Full(m) {
      AllPositive(m.Keys);
    } else {
      var id: u32 :| id >= 1 && id !in m;
      OneLess(m.Keys, id);
    }
  }

  lemma AllPositive(keys: set<u32>)
    requires 0 !in keys && forall i: u32 :: i >= 1 ==> i in keys
    ensures |keys| >= ID_MAX
  {
    AllTaken(keys);
    assert keys - {0} == keys;
  }

  lemma OneLess(keys: set<u32>, id: u32)
    requires 0 !in keys && id >= 1 && id !in keys
    ensures |keys| < ID_MAX
  {
    IdsBounded(keys + {id}, ID_MAX);
    assert |keys + {id}| == |keys| + 1;
  }
}
