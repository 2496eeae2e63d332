/** The message pipe between workers: a queue under a mutex, a waker that makes the receiver's wait end, and counted
    references to the pipe and to shared buffers. */
module MessagePipe {
  import opened ListRing

  datatype Option<T> = None | Some(value: T)

  /** A message and the shared buffers it carries. */
  datatype Message<D, B> = Message(data: D, sabs: seq<B>)

  /** What the mutex protects: the queue and the bytes in the waker's pipe. */
  datatype Channel<D, B> = Channel(queue: seq<Message<D, B>>, waker: nat)

  /** The waker holds one byte exactly when the queue is not empty. */
  predicate Awake<D, B>(c: Channel<D, B>) {
    c.waker == if c.queue == [] then 0 else 1
  }

  /** A locked section of a sender: signal if the queue was empty, then append. */
  function Post<D, B>(c: Channel<D, B>, m: Message<D, B>): (r: Channel<D, B>)
    ensures Awake(c) ==> Awake(r)
  {
    Channel(c.queue + [m], if c.queue == [] then c.waker + 1 else c.waker)
  }

  const WAKER_BUF := 16

  /** Clearing reads up to 16 bytes; it returns at once if there is one. */
  function Clear(waker: nat): (r: nat) {
    if waker <= WAKER_BUF then 0 else waker - WAKER_BUF
  }

  /** A locked section of the receiver: remove the first message, and clear the waker if it was the last. */
  function Take<D, B>(c: Channel<D, B>): (r: Channel<D, B>)
    requires c.queue != []
    ensures Awake(c) ==> Awake(r)
  {
    Channel(c.queue[1..], if c.queue[1..] == [] then Clear(c.waker) else c.waker)
  }

  /** Every link but the head belongs to a message. */
  predicate AllIn<D, B>(msgs: map<Node, Message<D, B>>, ns: seq<Node>) {
    ns != [] && forall i :: 1 <= i < |ns| ==> ns[i] in msgs
  }

  /** The messages in the order of their links. */
  function Messages<D, B>(msgs: map<Node, Message<D, B>>, ns: seq<Node>): (q: seq<Message<D, B>>)
    requires AllIn(msgs, ns)
    ensures |q| == |ns| - 1 && forall i :: 0 <= i < |q| ==> q[i] == msgs[ns[i + 1]]
  {
    seq(|ns| - 1, i requires 0 <= i < |ns| - 1 => msgs[ns[i + 1]])
  }

  /** The pipe: the messages are linked in a ring, and `msgs` leads from a link to its message. */
  class Pipe<D, B> {
    var head: Node
    var msgs: map<Node, Message<D, B>>
    var waker: nat
    ghost var nodes: seq<Node>

    constructor ()
      ensures Linked() && fresh(nodes) && C() == Channel([], 0)
    {
      head := new Node();
      msgs, waker := map[], 0;
      nodes := [head];
      new;
      InitListHead(head);
    }

    ghost predicate Linked()
      reads this, nodes
    {
      Ring(nodes) && nodes[0] == head && AllIn(msgs, nodes)
    }

    /** The messages in the order of the ring. */
    ghost function Queue(): (q: seq<Message<D, B>>)
      requires Linked()
      reads this, nodes
    {
      Messages(msgs, nodes)
    }

    ghost function C(): Channel<D, B>
      requires Linked()
      reads this, nodes
    {
      Channel(Queue(), waker)
    }

    method WakerSignal()
      modifies this`waker
      ensures waker == old(waker) + 1
    {
      waker := waker + 1;
    }

    /** The read never blocks: there is a byte to be read. */
    method WakerClear()
      requires waker > 0
      modifies this`waker
      ensures waker == Clear(old(waker))
    {
      waker := if waker <= WAKER_BUF then 0 else waker - WAKER_BUF;
    }

    method PostMessage(m: Message<D, B>)
      requires Linked() && Awake(C())
      modifies this, nodes
      ensures Linked() && fresh(set x | x in nodes && x !in old(nodes))
      ensures Awake(C()) && C() == Post(old(C()), m)
    {
      hide Ring;
      ghost var was := Queue();
      var el := new Node();
      msgs := msgs[el := m];
      var empty := ListEmpty(head, nodes);
      if empty {
        WakerSignal();
      }
      ListAddTail(el, head, nodes);
      nodes := nodes + [el];
      assert Messages(msgs, nodes) == was + [m];
    }

    method HandlePostedMessage() returns (m: Option<Message<D, B>>)
      requires Linked() && Awake(C())
      modifies this, nodes
      ensures Linked() && forall x :: x in nodes ==> x in old(nodes)
      ensures Awake(C())
      ensures old(Queue()) == [] ==> m == None && C() == old(C())
      ensures old(Queue()) != [] ==> m == Some(old(Queue())[0]) && C() == Take(old(C()))
    {
      hide Ring;
      ghost var was := Queue();
      var empty := ListEmpty(head, nodes);
      if empty {
        return None;
      }
      var el := ListFirst(head, nodes);
      m := Some(msgs[el]);
      RingNotEmpty(nodes);
      ListDel(el, nodes, 1);
      nodes := nodes[..1] + nodes[2..];
      assert Messages(msgs, nodes) == was[1..];
      empty := ListEmpty(head, nodes);
      if empty {
        WakerClear();
      }
    }
  }

  lemma RingNotEmpty(ns: seq<Node>)
    requires Ring(ns)
    ensures ns != []
  {
  }

  // ---- any number of senders and receivers ----

  /** A thread that is sending `msg` and has taken references to its first `done` buffers, or a thread that has
      taken `msg` off the queue and given back the references to its first `done` buffers. */
  datatype Busy<D, B> = Idle | Sending(msg: Message<D, B>, done: nat) | Receiving(msg: Message<D, B>, done: nat)

  datatype World<D, B> = World(
    channel: Channel<D, B>,
    threads: seq<Busy<D, B>>,
    refs: nat,            // the reference count of the pipe
    handles: seq<nat>,    // how many references to the pipe each thread holds
    closer: Option<nat>,  // the thread that gave back the last one
    counts: map<B, int>,  // the reference count of every buffer that has not been freed
    owners: multiset<B>,  // references held by values of the engine
    posted: seq<Message<D, B>>,
    handled: seq<Message<D, B>>,
    discarded: seq<Message<D, B>>)

  ghost function Sum(hs: seq<nat>): (r: nat) {
    if hs == [] then 0 else Sum(hs[..|hs| - 1]) + hs[|hs| - 1]
  }

  /** The count of the pipe is the number of handles, one for each thread; without any the pipe is being freed by the
      thread that gave back the last one. A thread that is sending holds a handle. */
  ghost predicate PipeCounted<D, B>(w: World<D, B>) {
    && |w.handles| == |w.threads| && w.refs == Sum(w.handles)
    && (w.refs == 0 <==> w.closer.Some?)
    && (forall t :: 0 <= t < |w.threads| && w.threads[t].Sending? ==> w.handles[t] > 0)
    && (w.closer.Some? ==> w.closer.value < |w.threads|)
    && (w.refs > 0 ==> w.discarded == [])
  }

  /** The references that a thread holds. */
  ghost function Held<D, B>(b: Busy<D, B>): multiset<B> {
    match b
    case Idle => multiset{}
    case Sending(m, done) => multiset(if done <= |m.sabs| then m.sabs[..done] else m.sabs)
    case Receiving(m, done) => multiset(if done <= |m.sabs| then m.sabs[done..] else [])
  }

  ghost function HeldByAll<D, B>(ts: seq<Busy<D, B>>): multiset<B> {
    if ts == [] then multiset{} else HeldByAll(ts[..|ts| - 1]) + Held(ts[|ts| - 1])
  }

  ghost function Queued<D, B>(q: seq<Message<D, B>>): multiset<B> {
    if q == [] then multiset{} else Queued(q[..|q| - 1]) + multiset(q[|q| - 1].sabs)
  }

  /** All references there are. */
  ghost function References<D, B>(w: World<D, B>): multiset<B> {
    w.owners + Queued(w.channel.queue) + HeldByAll(w.threads)
  }

  /** The count of a buffer is the number of references to it; a buffer without any has been freed. */
  ghost predicate Counted<D, B(!new)>(w: World<D, B>) {
    forall b ::
      && (b in w.counts ==> w.counts[b] == References(w)[b] && w.counts[b] > 0)
      && (b !in w.counts ==> References(w)[b] == 0)
  }

  /** No thread is further than the end of its message. */
  ghost predicate InStep<D, B>(w: World<D, B>) {
    forall t :: 0 <= t < |w.threads| && !w.threads[t].Idle? ==> w.threads[t].done <= |w.threads[t].msg.sabs|
  }

  /** What holds whenever the mutex is free. */
  ghost predicate Inv<D, B(!new)>(w: World<D, B>) {
    && (w.refs > 0 ==> Awake(w.channel))
    && w.handled + w.discarded + w.channel.queue == w.posted
    && Counted(w)
    && InStep(w)
    && PipeCounted(w)
  }

  /** One more reference, or one less; the last one frees the buffer. */
  function Dup<B>(counts: map<B, int>, b: B): map<B, int>
    requires b in counts
  {
    counts[b := counts[b] + 1]
  }

  function Drop<B>(counts: map<B, int>, b: B): map<B, int>
    requires b in counts
  {
    if counts[b] == 1 then counts - {b} else counts[b := counts[b] - 1]
  }

  datatype Step<D, B> =
    | Alloc(b: B)  // a new shared buffer
    | OwnerDup(b: B)  // a value of the engine comes to refer to a live buffer
    | OwnerDrop(b: B)
    | DupPipe(t: nat, u: nat)  // a thread that has a handle gives one to a thread
    | FreePipe(t: nat)         // a thread gives back a handle
    | Discard(t: nat)          // the last one frees what is still queued
    | BeginPost(t: nat, msg: Message<D, B>)
    | SenderDup(t: nat)
    | Enqueue(t: nat)
    | Dequeue(t: nat)
    | ReceiverDrop(t: nat)
    | EndReceive(t: nat)

  /** When a step can be taken: a buffer is only touched while it is alive. */
  ghost predicate Enabled<D, B>(w: World<D, B>, s: Step<D, B>) {
    match s
    case Alloc(b) => b !in w.counts
    case OwnerDup(b) => b in w.counts
    case OwnerDrop(b) => b in w.owners
    case DupPipe(t, u) => t < |w.handles| && u < |w.handles| && w.handles[t] > 0
    case FreePipe(t) => t < |w.handles| && t < |w.threads| && w.handles[t] > 0 && !w.threads[t].Sending?
    case Discard(t) => t < |w.threads| && w.closer == Some(t) && w.threads[t].Idle? && w.channel.queue != []
    case BeginPost(t, _) => t < |w.threads| && t < |w.handles| && w.handles[t] > 0 && w.threads[t].Idle?
    case SenderDup(t) =>
      && t < |w.threads| && w.threads[t].Sending? && w.threads[t].done < |w.threads[t].msg.sabs|
      && w.threads[t].msg.sabs[w.threads[t].done] in w.owners  // the value being sent is alive
    case Enqueue(t) => t < |w.threads| && w.threads[t].Sending? && w.threads[t].done == |w.threads[t].msg.sabs|
    case Dequeue(t) =>
      t < |w.threads| && t < |w.handles| && w.handles[t] > 0 && w.threads[t].Idle? && w.channel.queue != []
    case ReceiverDrop(t) => t < |w.threads| && w.threads[t].Receiving? && w.threads[t].done < |w.threads[t].msg.sabs|
    case EndReceive(t) => t < |w.threads| && w.threads[t].Receiving? && w.threads[t].done == |w.threads[t].msg.sabs|
  }

  /** The buffer whose count a step changes. */
  ghost function Touched<D, B>(w: World<D, B>, s: Step<D, B>): Option<B>
    requires Enabled(w, s)
  {
    match s
    case OwnerDup(b) => Some(b)
    case OwnerDrop(b) => Some(b)
    case SenderDup(t) => Some(w.threads[t].msg.sabs[w.threads[t].done])
    case ReceiverDrop(t) => Some(w.threads[t].msg.sabs[w.threads[t].done])
    case _ => None
  }

  /** The steps that use the pipe. */
  predicate UsesPipe<D, B>(s: Step<D, B>) {
    s.DupPipe? || s.FreePipe? || s.BeginPost? || s.Enqueue? || s.Dequeue?
  }

  ghost predicate Safe<D, B>(w: World<D, B>, s: Step<D, B>)
    requires Enabled(w, s)
  {
    && (Touched(w, s).Some? ==> Touched(w, s).value in w.counts)
    && (UsesPipe(s) ==> w.refs > 0)
  }

  ghost function Apply<D, B>(w: World<D, B>, s: Step<D, B>): (r: World<D, B>)
    requires Enabled(w, s) && Safe(w, s)
  {
    match s
    case Alloc(b) => w.(counts := w.counts[b := 1], owners := w.owners + multiset{b})
    case OwnerDup(b) => w.(counts := Dup(w.counts, b), owners := w.owners + multiset{b})
    case OwnerDrop(b) => w.(counts := Drop(w.counts, b), owners := w.owners - multiset{b})
    case DupPipe(t, u) => w.(refs := w.refs + 1, handles := w.handles[u := w.handles[u] + 1])
    case FreePipe(t) =>
      w.(refs := w.refs - 1, handles := w.handles[t := w.handles[t] - 1],
         closer := if w.refs == 1 then Some(t) else w.closer)
    case Discard(t) =>
      var m := w.channel.queue[0];
      w.(channel := w.channel.(queue := w.channel.queue[1..]), threads := w.threads[t := Receiving(m, 0)],
         discarded := w.discarded + [m])
    case BeginPost(t, m) => w.(threads := w.threads[t := Sending(m, 0)])
    case SenderDup(t) =>
      var th := w.threads[t];
      w.(counts := Dup(w.counts, th.msg.sabs[th.done]), threads := w.threads[t := Sending(th.msg, th.done + 1)])
    case Enqueue(t) =>
      var m := w.threads[t].msg;
      w.(channel := Post(w.channel, m), threads := w.threads[t := Idle], posted := w.posted + [m])
    case Dequeue(t) =>
      var m := w.channel.queue[0];
      w.(channel := Take(w.channel), threads := w.threads[t := Receiving(m, 0)], handled := w.handled + [m])
    case ReceiverDrop(t) =>
      var th := w.threads[t];
      w.(counts := Drop(w.counts, th.msg.sabs[th.done]), threads := w.threads[t := Receiving(th.msg, th.done + 1)])
    case EndReceive(t) => w.(threads := w.threads[t := Idle])
  }

  // ---- references ----

  lemma {:induction false} HeldUpdate<D, B>(ts: seq<Busy<D, B>>, t: nat, x: Busy<D, B>)
    requires t < |ts|
    ensures HeldByAll(ts[t := x]) + Held(ts[t]) == HeldByAll(ts) + Held(x)
    decreases |ts|
  {
    hide Held;
    var n := |ts| - 1;
    if t == n {
      assert ts[t := x][..n] == ts[..n];
    } else {
      HeldUpdate(ts[..n], t, x);
      assert ts[t := x][..n] == ts[..n][t := x] && ts[t := x][n] == ts[n] && ts[..n][t] == ts[t];
      var a, b, c := HeldByAll(ts[..n][t := x]), HeldByAll(ts[..n]), Held(ts[n]);
      assert HeldByAll(ts[t := x]) == a + c && HeldByAll(ts) == b + c;
      assert (a + c) + Held(ts[t]) == (a + Held(ts[t])) + c;
      assert (b + c) + Held(x) == (b + Held(x)) + c;
    }
  }

  lemma {:induction false} HeldIncludes<D, B>(ts: seq<Busy<D, B>>, t: nat)
    requires t < |ts|
    ensures Held(ts[t]) <= HeldByAll(ts)
    decreases |ts|
  {
    hide Held;
    if t < |ts| - 1 {
      HeldIncludes(ts[..|ts| - 1], t);
    }
  }

  lemma QueuedSnoc<D, B>(q: seq<Message<D, B>>, m: Message<D, B>)
    ensures Queued(q + [m]) == Queued(q) + multiset(m.sabs)
  {
    assert (q + [m])[..|q|] == q;
  }

  lemma {:induction false} QueuedHead<D, B>(q: seq<Message<D, B>>)
    requires q != []
    ensures Queued(q) == multiset(q[0].sabs) + Queued(q[1..])
    decreases |q|
  {
    var n := |q| - 1;
    if n > 0 {
      QueuedHead(q[..n]);
      assert q[..n][1..] == q[1..][..n - 1];
    } else {
      assert q[..0] == [] && q[1..] == [];
    }
  }

  lemma {:induction false} QueuedIncludes<D, B>(q: seq<Message<D, B>>, i: nat)
    requires i < |q|
    ensures multiset(q[i].sabs) <= Queued(q)
    decreases |q|
  {
    if i < |q| - 1 {
      QueuedIncludes(q[..|q| - 1], i);
    }
  }

  lemma TakenOne<B>(s: seq<B>, done: nat)
    requires done < |s|
    ensures multiset(s[..done + 1]) == multiset(s[..done]) + multiset{s[done]}
    ensures multiset(s[done..]) == multiset{s[done]} + multiset(s[done + 1..])
    ensures multiset(s[..|s|]) == multiset(s[0..]) == multiset(s)
    ensures multiset(s[|s|..]) == multiset(s[..0]) == multiset{}
  {
    assert s[..done + 1] == s[..done] + [s[done]];
    assert s[done..] == [s[done]] + s[done + 1..];
    assert s[..|s|] == s[0..] == s;
  }

  lemma WholeMessage<B>(s: seq<B>)
    ensures multiset(s[..|s|]) == multiset(s[0..]) == multiset(s)
    ensures multiset(s[|s|..]) == multiset(s[..0]) == multiset{}
  {
    assert s[..|s|] == s[0..] == s;
  }

  // ---- every step keeps the invariant ----

  /** A buffer that is referred to is alive. */
  lemma Referenced<D, B(!new)>(w: World<D, B>, b: B)
    requires Counted(w) && b in References(w)
    ensures b in w.counts
  {
    hide References;
    assert References(w)[b] > 0;
  }

  lemma {:induction false} SumUpdate(hs: seq<nat>, t: nat, x: nat)
    requires t < |hs|
    ensures Sum(hs[t := x]) == Sum(hs) - hs[t] + x && hs[t] <= Sum(hs)
    decreases |hs|
  {
    var n := |hs| - 1;
    if t == n {
      assert hs[t := x][..n] == hs[..n];
    } else {
      SumUpdate(hs[..n], t, x);
      assert hs[t := x][..n] == hs[..n][t := x];
    }
  }

  /** A thread that holds a handle keeps the pipe alive. */
  lemma HandleIsAlive<D, B>(w: World<D, B>, t: nat)
    requires PipeCounted(w) && t < |w.handles| && w.handles[t] > 0
    ensures w.refs > 0
  {
    SumUpdate(w.handles, t, 0);
  }

  /** No step touches a buffer or a pipe that has been freed. */
  lemma StepsAreSafe<D, B(!new)>(w: World<D, B>, s: Step<D, B>)
    requires Inv(w) && Enabled(w, s)
    ensures Safe(w, s)
  {
    hide HeldByAll, Queued, Counted;
    BuffersAreAlive(w, s);
    match s
    case DupPipe(t, _) => HandleIsAlive(w, t);
    case FreePipe(t) => HandleIsAlive(w, t);
    case BeginPost(t, _) => HandleIsAlive(w, t);
    case Enqueue(t) => HandleIsAlive(w, t);
    case Dequeue(t) => HandleIsAlive(w, t);
    case _ =>
  }

  lemma BuffersAreAlive<D, B(!new)>(w: World<D, B>, s: Step<D, B>)
    requires Inv(w) && Enabled(w, s)
    ensures Touched(w, s).Some? ==> Touched(w, s).value in w.counts
  {
    hide HeldByAll, Queued, Counted, PipeCounted;
    match s
    case OwnerDrop(b) => Referenced(w, b);
    case SenderDup(t) => Referenced(w, w.threads[t].msg.sabs[w.threads[t].done]);
    case ReceiverDrop(t) =>
      var th := w.threads[t];
      HeldIncludes(w.threads, t);
      TakenOne(th.msg.sabs, th.done);
      assert th.msg.sabs[th.done] in Held(th);
      Referenced(w, th.msg.sabs[th.done]);
    case _ =>
  }

  /** Counts follow the references: one more. */
  lemma CountedMore<D, B(!new)>(w: World<D, B>, v: World<D, B>, b: B)
    requires Counted(w) && References(v) == References(w) + multiset{b}
    requires v.counts == (if b in w.counts then Dup(w.counts, b) else w.counts[b := 1])
    ensures Counted(v)
  {
    hide References;
  }

  lemma CountedLess<D, B(!new)>(w: World<D, B>, v: World<D, B>, b: B)
    requires Counted(w) && References(w) == References(v) + multiset{b} && b in w.counts && v.counts == Drop(w.counts, b)
    ensures Counted(v)
  {
    hide References;
  }

  lemma CountedSame<D, B(!new)>(w: World<D, B>, v: World<D, B>)
    requires Counted(w) && References(v) == References(w) && v.counts == w.counts
    ensures Counted(v)
  {
    hide References;
  }

  /** What one side gains or loses, the other one does. */
  lemma Balance<B(!new)>(rv: multiset<B>, h: multiset<B>, q: multiset<B>, rw: multiset<B>, x: multiset<B>, q1: multiset<B>,
                         gain: multiset<B>, loss: multiset<B>)
    requires rv + h + q == rw + x + q1 && x + q1 + loss == h + q + gain
    ensures rv + loss == rw + gain
  {
    forall b
      ensures (rv + loss)[b] == (rw + gain)[b]
    {
      assert (rv + h + q)[b] == (rw + x + q1)[b];
      assert (x + q1 + loss)[b] == (h + q + gain)[b];
    }
  }

  lemma NoneAdded<B>(a: multiset<B>)
    ensures a + multiset{} == a && multiset{} + a == a
  {
  }

  /** What a change of one thread does to the references. */
  lemma ThreadChanges<D, B>(w: World<D, B>, v: World<D, B>, t: nat, x: Busy<D, B>)
    requires t < |w.threads| && v.threads == w.threads[t := x] && v.owners == w.owners
    ensures References(v) + Held(w.threads[t]) + Queued(w.channel.queue)
         == References(w) + Held(x) + Queued(v.channel.queue)
  {
    hide Held, HeldByAll, Queued;
    HeldUpdate(w.threads, t, x);
    var o, q, q1, a, b := w.owners, Queued(w.channel.queue), Queued(v.channel.queue), HeldByAll(v.threads),
      HeldByAll(w.threads);
    assert (o + q1 + a) + Held(w.threads[t]) + q == (o + q + q1) + (a + Held(w.threads[t]));
    assert (o + q + b) + Held(x) + q1 == (o + q + q1) + (b + Held(x));
  }

  lemma OwnerCounts<D, B(!new)>(w: World<D, B>, s: Step<D, B>)
    requires Inv(w) && Enabled(w, s) && Safe(w, s) && (s.Alloc? || s.OwnerDup? || s.OwnerDrop?)
    ensures Counted(Apply(w, s))
  {
    hide Counted, HeldByAll, Queued;
    var v := Apply(w, s);
    match s
    case Alloc(b) => CountedMore(w, v, b);
    case OwnerDup(b) => CountedMore(w, v, b);
    case OwnerDrop(b) => CountedLess(w, v, b);
  }

  lemma BeginCounts<D, B(!new)>(w: World<D, B>, s: Step<D, B>)
    requires Inv(w) && Enabled(w, s) && Safe(w, s) && s.BeginPost?
    ensures Counted(Apply(w, s))
  {
    hide Counted, HeldByAll, Queued, References;
    var v, t, x := Apply(w, s), s.t, Sending(s.msg, 0);
    ThreadChanges(w, v, t, x);
    WholeMessage(s.msg.sabs);
    References0(w, v, Held(w.threads[t]), Queued(w.channel.queue), Held(x), Queued(w.channel.queue));
  }

  lemma SenderDupCounts<D, B(!new)>(w: World<D, B>, s: Step<D, B>)
    requires Inv(w) && Enabled(w, s) && Safe(w, s) && s.SenderDup?
    ensures Counted(Apply(w, s))
  {
    hide Counted, HeldByAll, Queued, References;
    var v, t := Apply(w, s), s.t;
    var th, q := w.threads[t], Queued(w.channel.queue);
    var b, x := th.msg.sabs[th.done], Sending(th.msg, th.done + 1);
    ThreadChanges(w, v, t, x);
    TakenOne(th.msg.sabs, th.done);
    assert Held(x) + q + multiset{} == Held(th) + q + multiset{b};
    Balance(References(v), Held(th), q, References(w), Held(x), q, multiset{b}, multiset{});
    NoneAdded(References(v));
    CountedMore(w, v, b);
  }

  lemma EnqueueCounts<D, B(!new)>(w: World<D, B>, s: Step<D, B>)
    requires Inv(w) && Enabled(w, s) && Safe(w, s) && s.Enqueue?
    ensures Counted(Apply(w, s))
  {
    hide Counted, HeldByAll, Queued, References;
    var v, t := Apply(w, s), s.t;
    var th, q := w.threads[t], Queued(w.channel.queue);
    ThreadChanges(w, v, t, Idle);
    WholeMessage(th.msg.sabs);
    QueuedSnoc(w.channel.queue, th.msg);
    References0(w, v, Held(th), q, multiset{}, Queued(v.channel.queue));
  }

  /** A step that only moves references. */
  lemma References0<D, B(!new)>(w: World<D, B>, v: World<D, B>, h: multiset<B>, q: multiset<B>, x: multiset<B>, q1: multiset<B>)
    requires Counted(w) && v.counts == w.counts
    requires References(v) + h + q == References(w) + x + q1 && x + q1 == h + q
    ensures Counted(v)
  {
    hide Counted, References;
    NoneAdded(References(v));
    NoneAdded(References(w));
    NoneAdded(x + q1);
    NoneAdded(h + q);
    Balance(References(v), h, q, References(w), x, q1, multiset{}, multiset{});
    CountedSame(w, v);
  }

  lemma ReceiverCounts<D, B(!new)>(w: World<D, B>, s: Step<D, B>)
    requires Inv(w) && Enabled(w, s) && Safe(w, s) && (s.ReceiverDrop? || s.EndReceive?)
    ensures Counted(Apply(w, s))
  {
    hide Counted, HeldByAll, Queued, References;
    var v, t := Apply(w, s), s.t;
    var th, q := w.threads[t], Queued(w.channel.queue);
    if s.ReceiverDrop? {
      var b, x := th.msg.sabs[th.done], Receiving(th.msg, th.done + 1);
      ThreadChanges(w, v, t, x);
      TakenOne(th.msg.sabs, th.done);
      assert Held(x) + q + multiset{b} == Held(th) + q + multiset{};
      Balance(References(v), Held(th), q, References(w), Held(x), q, multiset{}, multiset{b});
      NoneAdded(References(w));
      CountedLess(w, v, b);
    } else {
      ThreadChanges(w, v, t, Idle);
      WholeMessage(th.msg.sabs);
      References0(w, v, Held(th), q, multiset{}, q);
    }
  }

  /** Taking a message off the queue. */
  lemma TakingCounts<D, B(!new)>(w: World<D, B>, s: Step<D, B>)
    requires Inv(w) && Enabled(w, s) && Safe(w, s) && (s.Dequeue? || s.Discard?)
    ensures Counted(Apply(w, s))
  {
    hide Counted, HeldByAll, Queued, References;
    var v, t := Apply(w, s), s.t;
    var th, q, m := w.threads[t], Queued(w.channel.queue), w.channel.queue[0];
    var x := Receiving(m, 0);
    ThreadChanges(w, v, t, x);
    WholeMessage(m.sabs);
    QueuedHead(w.channel.queue);
    NoneAdded(q);
    References0(w, v, Held(th), q, Held(x), Queued(v.channel.queue));
  }

  lemma StepCounts<D, B(!new)>(w: World<D, B>, s: Step<D, B>)
    requires Inv(w) && Enabled(w, s) && Safe(w, s)
    ensures Counted(Apply(w, s))
  {
    hide Counted, Enabled, Safe, HeldByAll, Queued;
    if s.Alloc? || s.OwnerDup? || s.OwnerDrop? {
      OwnerCounts(w, s);
    } else if s.DupPipe? || s.FreePipe? {
      CountedSame(w, Apply(w, s));
    } else if s.BeginPost? {
      BeginCounts(w, s);
    } else if s.SenderDup? {
      SenderDupCounts(w, s);
    } else if s.Enqueue? {
      EnqueueCounts(w, s);
    } else if s.Dequeue? || s.Discard? {
      TakingCounts(w, s);
    } else {
      ReceiverCounts(w, s);
    }
  }

  lemma PipeStepCounted<D, B(!new)>(w: World<D, B>, s: Step<D, B>)
    requires Inv(w) && Enabled(w, s) && Safe(w, s)
    ensures PipeCounted(Apply(w, s))
  {
    hide Counted, HeldByAll, Queued;
    match s
    case DupPipe(t, u) => SumUpdate(w.handles, u, w.handles[u] + 1);
    case FreePipe(t) => SumUpdate(w.handles, t, w.handles[t] - 1);
    case Discard(t) => OpenNotDiscarding(w);
    case _ =>
  }

  lemma OpenNotDiscarding<D, B>(w: World<D, B>)
    requires PipeCounted(w) && w.closer.Some?
    ensures w.refs == 0
  {
  }

  /** The messages stay in the order in which they were posted. */
  lemma StepOrders<D, B(!new)>(w: World<D, B>, s: Step<D, B>)
    requires Inv(w) && Enabled(w, s) && Safe(w, s)
    ensures var v := Apply(w, s);
      (v.refs > 0 ==> Awake(v.channel)) && v.handled + v.discarded + v.channel.queue == v.posted && InStep(v)
  {
    hide Counted, HeldByAll, Queued;
    var q, h, d := w.channel.queue, w.handled, w.discarded;
    if s.Enqueue? {
      var m := w.threads[s.t].msg;
      assert h + d + (q + [m]) == w.posted + [m];
    } else if s.Dequeue? {
      assert q == [q[0]] + q[1..] && d == [];
      assert (h + [q[0]]) + [] + q[1..] == h + [] + q;
    } else if s.Discard? {
      assert q == [q[0]] + q[1..];
      assert h + (d + [q[0]]) + q[1..] == h + d + q;
    }
  }

  /** Every step of every thread keeps the invariant. */
  lemma StepKeeps<D, B(!new)>(w: World<D, B>, s: Step<D, B>)
    requires Inv(w) && Enabled(w, s)
    ensures Safe(w, s) && Inv(Apply(w, s))
  {
    hide Counted, PipeCounted, Apply, InStep, Enabled, Safe;
    StepsAreSafe(w, s);
    StepCounts(w, s);
    PipeStepCounted(w, s);
    StepOrders(w, s);
  }

  // ---- runs ----

  ghost predicate Start<D, B>(w: World<D, B>) {
    && w.channel == Channel([], 0) && w.counts == map[] && w.owners == multiset{}
    && w.posted == [] && w.handled == [] && w.discarded == []
    && |w.handles| == |w.threads| && w.refs == 1 == Sum(w.handles) && w.closer == None
    && forall t :: 0 <= t < |w.threads| ==> w.threads[t].Idle?
  }

  /** An interleaving of the steps of all threads. */
  ghost predicate Run<D, B>(ws: seq<World<D, B>>, steps: seq<Step<D, B>>) {
    && |ws| == |steps| + 1 && Start(ws[0])
    && forall i :: 0 <= i < |steps| ==>
         Enabled(ws[i], steps[i]) && (Safe(ws[i], steps[i]) ==> ws[i + 1] == Apply(ws[i], steps[i]))
  }

  lemma {:induction false} IdleHolds<D, B>(ts: seq<Busy<D, B>>)
    requires forall t :: 0 <= t < |ts| ==> ts[t].Idle?
    ensures HeldByAll(ts) == multiset{}
    decreases |ts|
  {
    if ts != [] {
      IdleHolds(ts[..|ts| - 1]);
    }
  }

  /** Under every interleaving: no freed buffer is ever touched, and the invariant holds throughout. */
  lemma {:induction false} RunKeeps<D, B(!new)>(ws: seq<World<D, B>>, steps: seq<Step<D, B>>, n: nat)
    requires Run(ws, steps) && n < |ws|
    ensures Inv(ws[n])
    ensures n < |steps| ==> Safe(ws[n], steps[n])
    decreases n
  {
    hide Inv, Safe, Apply, Enabled;
    if n == 0 {
      StartInv(ws[0]);
    } else {
      RunKeeps(ws, steps, n - 1);
      StepKeeps(ws[n - 1], steps[n - 1]);
    }
    if n < |steps| {
      StepsAreSafe(ws[n], steps[n]);
    }
  }

  lemma StartInv<D, B(!new)>(w: World<D, B>)
    requires Start(w)
    ensures Inv(w)
  {
    IdleHolds(w.threads);
  }

  /** What a run promises: messages are handled in the order in which they were posted, and none is discarded while
      there is a reference to the pipe; until then, while one is queued the waker holds a byte, so that taking the last
      one finds a byte to read; and the buffers of queued messages are alive. */
  lemma RunPromises<D, B(!new)>(ws: seq<World<D, B>>, steps: seq<Step<D, B>>, n: nat, i: nat, b: B)
    requires Run(ws, steps) && n < |ws|
    ensures ws[n].handled <= ws[n].posted
    ensures ws[n].handled + ws[n].discarded + ws[n].channel.queue == ws[n].posted
    ensures ws[n].refs == Sum(ws[n].handles) && (ws[n].refs > 0 ==> ws[n].discarded == [])
    ensures ws[n].refs > 0 ==> (ws[n].channel.waker == 1 <==> ws[n].channel.queue != []) && ws[n].channel.waker <= 1
    ensures i < |ws[n].channel.queue| && b in ws[n].channel.queue[i].sabs ==> b in ws[n].counts && ws[n].counts[b] > 0
  {
    hide Counted, HeldByAll, Queued;
    RunKeeps(ws, steps, n);
    var w := ws[n];
    if i < |w.channel.queue| && b in w.channel.queue[i].sabs {
      QueuedIncludes(w.channel.queue, i);
      assert b in multiset(w.channel.queue[i].sabs);
      assert b in References(w);
      Referenced(w, b);
      CountPositive(w, b);
    }
    HandledFirst(w.handled, w.discarded, w.channel.queue);
  }

  lemma HandledFirst<M>(h: seq<M>, d: seq<M>, q: seq<M>)
    ensures h <= h + d + q
  {
  }

  /** When the pipe is gone and no thread is at work on a message, every reference that is left belongs to a value of
      the engine: no buffer has leaked. */
  lemma NothingLeaks<D, B(!new)>(w: World<D, B>, b: B)
    requires Inv(w) && w.channel.queue == [] && forall t :: 0 <= t < |w.threads| ==> w.threads[t].Idle?
    ensures b in w.counts <==> b in w.owners
    ensures b in w.counts ==> w.counts[b] == w.owners[b]
  {
    IdleHolds(w.threads);
    assert References(w) == w.owners;
  }

  lemma CountPositive<D, B(!new)>(w: World<D, B>, b: B)
    requires Counted(w) && b in w.counts
    ensures w.counts[b] > 0
  {
    hide References;
  }

  // ---- freeing a pipe ----

  /** Give back the references of a message, one by one. */
  method FreeMessage<D, B(==, !new)>(w0: map<B, int>, m: Message<D, B>, ghost rest: multiset<B>) returns (counts: map<B, int>)
    requires Matches(w0, rest + multiset(m.sabs))
    ensures Matches(counts, rest)
  {
    counts := w0;
    var i := 0;
    WholeMessage(m.sabs);
    while i < |m.sabs|
      invariant 0 <= i <= |m.sabs| && Matches(counts, rest + multiset(m.sabs[i..]))
    {
      TakenOne(m.sabs, i);
      var b := m.sabs[i];
      assert (rest + multiset(m.sabs[i..]))[b] > 0;
      counts := Drop(counts, b);
      i := i + 1;
    }
    WholeMessage(m.sabs);
  }

  /** The counts are those of the references. */
  ghost predicate Matches<B(!new)>(counts: map<B, int>, refs: multiset<B>) {
    forall b ::
      && (b in counts ==> counts[b] == refs[b] && counts[b] > 0)
      && (b !in counts ==> refs[b] == 0)
  }

  /** The last reference to the pipe is gone: what is still queued is freed, and nothing else. */
  method FreePipe<D, B(==, !new)>(counts0: map<B, int>, queue: seq<Message<D, B>>, ghost others: multiset<B>)
    returns (counts: map<B, int>)
    requires Matches(counts0, others + Queued(queue))
    ensures Matches(counts, others)
  {
    hide Matches;
    counts := counts0;
    var i := 0;
    assert queue[0..] == queue;
    while i < |queue|
      invariant 0 <= i <= |queue| && Matches(counts, others + Queued(queue[i..]))
    {
      QueuedHead(queue[i..]);
      assert queue[i..][1..] == queue[i + 1..];
      assert others + Queued(queue[i..]) == (others + Queued(queue[i + 1..])) + multiset(queue[i].sabs);
      counts := FreeMessage(counts, queue[i], others + Queued(queue[i + 1..]));
      i := i + 1;
    }
    assert queue[i..] == [];
    assert others + multiset{} == others;
  }
}
