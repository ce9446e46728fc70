/**
 The multi-producer, single-consumer queue, one step for each access to shared memory: any
 number of producers and one consumer interleave in any order, and the allocator may hand out
 addresses that were deleted before.
 */
module MpscQueue {
  import opened Wrappers

  type Node = nat

  /** Where a producer is inside push. */
  datatype Producer<T> =
    | Idle
    | Allocated(node: Node, item: T)
    | Filled(node: Node)
    | Ready(node: Node)
    | Exchanged(prev: Node, node: Node)

  /** Where the consumer is inside pop. */
  datatype Consumer =
    | Waiting
    | GotTail(tail: Node)
    | GotNext(tail: Node, next: Node)
    | TookData(tail: Node, next: Node)
    | Advanced(tail: Node)

  /**
   Memory and threads. A node's next or data is in its map once it has been written; data that
   was moved out is not there any more. The last three fields are history: the nodes from the
   tail to the head in the order they became the head, and the items pushed and popped so far.
   */
  datatype Queue<T> = Queue(
    head: Node,
    tail: Node,
    next: map<Node, Option<Node>>,
    data: map<Node, T>,
    live: set<Node>,
    producers: seq<Producer<T>>,
    consumer: Consumer,
    chain: seq<Node>,
    pushed: seq<T>,
    popped: seq<T>
  )

  datatype Step<T> =
    | Allocate(p: nat, addr: Node, item: T)
    | WriteData(p: nat)
    | ClearNext(p: nat)
    | Exchange(p: nat)
    | Link(p: nat)
    | LoadTail
    | LoadNext
    | TakeData
    | StoreTail
    | DeleteTail

  /** The constructor: a stub without data is both head and tail. */
  function New<T>(n: nat, stub: Node): Queue<T> {
    Queue(stub, stub, map[stub := None], map[], {stub}, seq(n, _ => Idle), Waiting, [stub], [], [])
  }

  predicate Enabled<T>(q: Queue<T>, s: Step<T>) {
    match s
    case Allocate(p, addr, _) => p < |q.producers| && q.producers[p].Idle? && addr !in q.live
    case WriteData(p) => p < |q.producers| && q.producers[p].Allocated?
    case ClearNext(p) => p < |q.producers| && q.producers[p].Filled?
    case Exchange(p) => p < |q.producers| && q.producers[p].Ready?
    case Link(p) => p < |q.producers| && q.producers[p].Exchanged?
    case LoadTail => q.consumer.Waiting?
    case LoadNext => q.consumer.GotTail?
    case TakeData => q.consumer.GotNext?
    case StoreTail => q.consumer.TookData?
    case DeleteTail => q.consumer.Advanced?
  }

  /** The nodes whose memory a step reads, writes or frees. */
  function Accessed<T>(q: Queue<T>, s: Step<T>): set<Node>
    requires Enabled(q, s)
  {
    match s
    case WriteData(p) => {q.producers[p].node}
    case ClearNext(p) => {q.producers[p].node}
    case Link(p) => {q.producers[p].prev}
    case LoadNext => {q.consumer.tail}
    case TakeData => {q.consumer.next}
    case DeleteTail => {q.consumer.tail}
    case _ => {}
  }

  /** The memory a step reads was written before. */
  predicate ReadsInitialized<T>(q: Queue<T>, s: Step<T>)
    requires Enabled(q, s)
  {
    match s
    case Exchange(p) => q.producers[p].node in q.data
    case LoadNext => q.consumer.tail in q.next
    case TakeData => q.consumer.next in q.data
    case _ => true
  }

  function Apply<T>(q: Queue<T>, s: Step<T>): Queue<T>
    requires Enabled(q, s) && ReadsInitialized(q, s)
  {
    match s
    case Allocate(p, addr, item) =>
      q.(live := q.live + {addr}, next := q.next - {addr}, data := q.data - {addr},
         producers := q.producers[p := Allocated(addr, item)])
    case WriteData(p) =>
      var s := q.producers[p];
      q.(data := q.data[s.node := s.item], producers := q.producers[p := Filled(s.node)])
    case ClearNext(p) =>
      var n := q.producers[p].node;
      q.(next := q.next[n := None], producers := q.producers[p := Ready(n)])
    case Exchange(p) =>
      var n := q.producers[p].node;
      q.(head := n, producers := q.producers[p := Exchanged(q.head, n)],
         chain := q.chain + [n], pushed := q.pushed + [q.data[n]])
    case Link(p) =>
      var s := q.producers[p];
      q.(next := q.next[s.prev := Some(s.node)], producers := q.producers[p := Idle])
    case LoadTail =>
      q.(consumer := GotTail(q.tail))
    case LoadNext =>
      var t := q.consumer.tail;
      q.(consumer := if q.next[t].None? then Waiting else GotNext(t, q.next[t].value))
    case TakeData =>
      var n := q.consumer.next;
      q.(popped := q.popped + [q.data[n]], data := q.data - {n},
         consumer := TookData(q.consumer.tail, n))
    case StoreTail =>
      q.(tail := q.consumer.next, consumer := Advanced(q.consumer.tail),
         chain := if q.chain == [] then [] else q.chain[1..])
    case DeleteTail =>
      var t := q.consumer.tail;
      q.(live := q.live - {t}, next := q.next - {t}, data := q.data - {t}, consumer := Waiting)
  }

  // ----- the invariant

  /** The node a producer holds on to, from its allocation until it is linked. */
  function Owned<T>(s: Producer<T>): Option<Node> {
    if s.Idle? then None else Some(s.node)
  }

  ghost predicate Private<T>(s: Producer<T>) {
    s.Allocated? || s.Filled? || s.Ready?
  }

  ghost predicate Distinct(s: seq<Node>) {
    forall i, j :: 0 <= i < j < |s| ==> s[i] != s[j]
  }

  /** The nodes whose data is still to be popped. */
  function Pending<T>(q: Queue<T>): seq<Node>
    requires |q.chain| > 1 || (|q.chain| == 1 && !q.consumer.TookData?)
  {
    if q.consumer.TookData? then q.chain[2..] else q.chain[1..]
  }

  ghost predicate ChainOk<T>(q: Queue<T>) {
    && q.chain != [] && q.chain[0] == q.tail && q.chain[|q.chain| - 1] == q.head
    && Distinct(q.chain)
    && (forall i :: 0 <= i < |q.chain| ==> q.chain[i] in q.live && q.chain[i] in q.next)
  }

  /** Link i of the chain is stored, or a producer is about to store it. */
  ghost predicate LinkOk<T>(q: Queue<T>, i: nat)
    requires ChainOk(q) && i + 1 < |q.chain|
  {
    || q.next[q.chain[i]] == Some(q.chain[i + 1])
    || (q.next[q.chain[i]] == None
        && exists p :: 0 <= p < |q.producers| && q.producers[p] == Exchanged(q.chain[i], q.chain[i + 1]))
  }

  ghost predicate LinksOk<T>(q: Queue<T>) {
    && ChainOk(q)
    && q.next[q.head] == None
    && (forall i :: 0 <= i < |q.chain| - 1 ==> LinkOk(q, i))
  }

  /** A producer's private node is written as far as push has come; an exchanged one has its place in the chain. */
  ghost predicate ProducerOk<T>(q: Queue<T>, s: Producer<T>) {
    match s
    case Idle => true
    case Allocated(n, _) => n in q.live && n !in q.chain
    case Filled(n) => n in q.live && n !in q.chain && n in q.data
    case Ready(n) => n in q.live && n !in q.chain && n in q.data && n in q.next && q.next[n] == None
    case Exchanged(prev, n) =>
      && (prev in q.next && q.next[prev] == None)
      && exists i :: 0 <= i < |q.chain| - 1 && q.chain[i] == prev && q.chain[i + 1] == n
  }

  ghost predicate ProducersOk<T>(q: Queue<T>) {
    && (forall p :: 0 <= p < |q.producers| ==> ProducerOk(q, q.producers[p]))
    && (forall p, r :: 0 <= p < r < |q.producers| && !q.producers[p].Idle? ==>
          Owned(q.producers[p]) != Owned(q.producers[r]))
  }

  ghost predicate ConsumerOk<T>(q: Queue<T>) {
    match q.consumer
    case Waiting => true
    case GotTail(t) => t == q.tail
    case GotNext(t, n) => t == q.tail && |q.chain| > 1 && n == q.chain[1] && t in q.next && q.next[t] == Some(n)
    case TookData(t, n) => t == q.tail && |q.chain| > 1 && n == q.chain[1] && t in q.next && q.next[t] == Some(n)
    case Advanced(t) =>
      t in q.live && t !in q.chain && forall p :: 0 <= p < |q.producers| ==> Owned(q.producers[p]) != Some(t)
  }

  /** What was pushed is what was popped followed by the data still in the chain. */
  ghost predicate ItemsOk<T>(q: Queue<T>) {
    && (|q.chain| > 1 || (|q.chain| == 1 && !q.consumer.TookData?))
    && |q.pushed| == |q.popped| + |Pending(q)|
    && q.popped <= q.pushed
    && (forall i :: 0 <= i < |Pending(q)| ==>
          Pending(q)[i] in q.data && q.data[Pending(q)[i]] == q.pushed[|q.popped| + i])
  }

  /** Every allocated node is in the chain, private to a producer, or about to be deleted. */
  ghost predicate NothingLeaks<T>(q: Queue<T>) {
    forall n :: n in q.live ==> NotLeaked(q, n)
  }

  ghost predicate NotLeaked<T>(q: Queue<T>, n: Node) {
    || n in q.chain
    || q.consumer == Advanced(n)
    || exists p :: 0 <= p < |q.producers| && Private(q.producers[p]) && q.producers[p].node == n
  }

  ghost predicate Inv<T>(q: Queue<T>) {
    LinksOk(q) && ProducersOk(q) && ConsumerOk(q) && ItemsOk(q) && NothingLeaks(q)
  }

  // ----- every step keeps the invariant

  lemma ReadsAreInitialized<T>(q: Queue<T>, s: Step<T>)
    requires Inv(q) && Enabled(q, s)
    ensures ReadsInitialized(q, s)
  {
    if s.TakeData? {
      assert Pending(q)[0] == q.chain[1];
    }
  }

  /** Links stay in order when the chain and its next pointers do and no exchanged producer changes. */
  lemma LinksStay<T>(q: Queue<T>, r: Queue<T>)
    requires LinksOk(q) && ChainOk(r) && r.chain == q.chain
    requires forall n :: n in q.chain ==> r.next[n] == q.next[n]
    requires |r.producers| == |q.producers|
    requires forall p :: 0 <= p < |q.producers| && q.producers[p].Exchanged? ==> r.producers[p] == q.producers[p]
    ensures LinksOk(r)
  {
    forall i | 0 <= i < |r.chain| - 1 ensures LinkOk(r, i) {
      assert LinkOk(q, i);
    }
  }

  /** No node leaks when every node that was private still is, or is in the chain now. */
  lemma LeaksStay<T>(q: Queue<T>, r: Queue<T>)
    requires NothingLeaks(q) && |r.producers| == |q.producers|
    requires forall n :: n in r.live ==> n in q.live || NotLeaked(r, n)
    requires forall n :: n in q.chain && n in r.live ==> n in r.chain || r.consumer == Advanced(n)
    requires forall n :: q.consumer == Advanced(n) && n in r.live ==> r.consumer == Advanced(n)
    requires forall p :: 0 <= p < |q.producers| && Private(q.producers[p]) ==>
               q.producers[p].node in r.chain || (Private(r.producers[p]) && r.producers[p].node == q.producers[p].node)
    ensures NothingLeaks(r)
  {
    forall n | n in r.live ensures NotLeaked(r, n) {
      if n in q.live {
        assert NotLeaked(q, n);
      }
    }
  }

  /** One producer moves on with its node, or a new one; all others are as good as before. */
  lemma ProducersStay<T>(q: Queue<T>, r: Queue<T>, p: nat)
    requires ProducersOk(q) && p < |q.producers| && |r.producers| == |q.producers|
    requires forall w :: 0 <= w < |q.producers| && w != p ==> r.producers[w] == q.producers[w]
    requires forall w :: 0 <= w < |q.producers| && w != p ==> ProducerOk(r, q.producers[w])
    requires ProducerOk(r, r.producers[p])
    requires !r.producers[p].Idle? ==>
               || Owned(r.producers[p]) == Owned(q.producers[p])
               || forall w :: 0 <= w < |q.producers| ==> Owned(q.producers[w]) != Owned(r.producers[p])
    ensures ProducersOk(r)
  {
    hide ProducerOk;
  }

  /** A step of one producer that touches neither the chain nor the consumer's nodes. */
  ghost predicate PrivateStep<T>(q: Queue<T>, r: Queue<T>, p: nat) {
    && p < |q.producers| == |r.producers| && Private(r.producers[p])
    && r == q.(live := r.live, next := r.next, data := r.data, producers := q.producers[p := r.producers[p]])
    && (q.producers[p].Idle? || (Private(q.producers[p]) && Owned(q.producers[p]) == Owned(r.producers[p])))
    && var n := r.producers[p].node;
       && (q.producers[p].Idle? ==> n !in q.live) && r.live == q.live + {n}
       && (forall m :: m != n ==> (m in r.next <==> m in q.next) && (m in r.data <==> m in q.data))
       && (forall m :: m != n && m in r.next ==> r.next[m] == q.next[m])
       && (forall m :: m != n && m in r.data ==> r.data[m] == q.data[m])
  }

  lemma PrivateStepKeepsInv<T>(q: Queue<T>, r: Queue<T>, p: nat)
    requires Inv(q) && PrivateStep(q, r, p)
    requires r.producers[p].node !in q.chain ==> ProducerOk(r, r.producers[p])
    ensures Inv(r)
  {
    hide ProducerOk, ItemsOk, ConsumerOk, LinkOk, NotLeaked, Pending;
    PrivateNodeIsNew(q, r, p);
    PrivateStepKeepsProducers(q, r, p);
    PrivateStepKeepsConsumer(q, r, p);
    SameItems(q, r);
    ChainStays(q, r);
    LinksStay(q, r);
    PrivateIsNotLeaked(r, p);
    LeaksStay(q, r);
  }

  lemma PrivateNodeIsNew<T>(q: Queue<T>, r: Queue<T>, p: nat)
    requires ChainOk(q) && ProducersOk(q) && PrivateStep(q, r, p)
    ensures r.producers[p].node !in q.chain
  {
    assert ProducerOk(q, q.producers[p]);
  }

  lemma PrivateStepKeepsProducers<T>(q: Queue<T>, r: Queue<T>, p: nat)
    requires ChainOk(q) && ProducersOk(q) && PrivateStep(q, r, p) && r.producers[p].node !in q.chain
    requires ProducerOk(r, r.producers[p])
    ensures ProducersOk(r)
  {
    var n := r.producers[p].node;
    forall w | 0 <= w < |q.producers| && w != p
      ensures ProducerOk(r, q.producers[w]) && Owned(q.producers[w]) != Some(n)
    {
      assert ProducerOk(q, q.producers[w]);
      assert q.producers[w].Idle? || q.producers[w].node != n;
      PrivateStepKeepsProducer(q, r, q.producers[w], n);
    }
    hide ProducerOk;
    ProducersStay(q, r, p);
  }

  lemma PrivateStepKeepsConsumer<T>(q: Queue<T>, r: Queue<T>, p: nat)
    requires ChainOk(q) && ConsumerOk(q) && PrivateStep(q, r, p) && r.producers[p].node !in q.chain
    ensures ConsumerOk(r)
  {
  }

  lemma PrivateIsNotLeaked<T>(q: Queue<T>, p: nat)
    requires p < |q.producers| && Private(q.producers[p])
    ensures NotLeaked(q, q.producers[p].node)
  {
  }

  lemma ChainStays<T>(q: Queue<T>, r: Queue<T>)
    requires ChainOk(q) && r.chain == q.chain && r.head == q.head && r.tail == q.tail
    requires forall n :: n in q.chain ==> n in r.live && n in r.next
    ensures ChainOk(r)
  {
  }

  /** Producers are as good as before when no step of theirs is taken and their nodes are not touched. */
  lemma ProducersKept<T>(q: Queue<T>, r: Queue<T>)
    requires ProducersOk(q) && r.producers == q.producers && r.chain == q.chain
    requires forall p :: 0 <= p < |q.producers| && !q.producers[p].Idle? ==> Untouched(q, r, q.producers[p])
    ensures ProducersOk(r)
  {
    forall w | 0 <= w < |q.producers| ensures ProducerOk(r, r.producers[w]) {
      assert ProducerOk(q, q.producers[w]);
      assert !q.producers[w].Idle? ==> Untouched(q, r, q.producers[w]);
    }
  }

  ghost predicate Untouched<T>(q: Queue<T>, r: Queue<T>, s: Producer<T>)
    requires !s.Idle?
  {
    && (s.node in q.live ==> s.node in r.live)
    && (Private(s) && s.node in q.data ==> s.node in r.data)
    && (Private(s) && s.node in q.next ==> s.node in r.next && r.next[s.node] == q.next[s.node])
    && (s.Exchanged? && s.prev in q.next ==> s.prev in r.next && r.next[s.prev] == q.next[s.prev])
  }

  lemma LoadsKeepInv<T>(q: Queue<T>, s: Step<T>)
    requires Inv(q) && (s.LoadTail? || s.LoadNext?) && Enabled(q, s) && ReadsInitialized(q, s)
    ensures Inv(Apply(q, s))
  {
    hide ItemsOk, LinkOk, NotLeaked, ProducerOk, Pending;
    var r := Apply(q, s);
    if s.LoadNext? && r.consumer.GotNext? {
      FirstLink(q);
    }
    SameItems(q, r);
    ChainStays(q, r);
    LinksStay(q, r);
    ProducersKept(q, r);
    LeaksStay(q, r);
  }

  /** The tail's link, once stored, leads to the next node of the chain. */
  lemma FirstLink<T>(q: Queue<T>)
    requires LinksOk(q) && q.next[q.tail].Some?
    ensures |q.chain| > 1 && q.next[q.tail] == Some(q.chain[1])
  {
    assert |q.chain| > 1;
    assert LinkOk(q, 0);
  }

  lemma PrivateStepKeepsProducer<T>(q: Queue<T>, r: Queue<T>, s: Producer<T>, n: Node)
    requires ProducerOk(q, s) && r.chain == q.chain && r.live >= q.live && n !in q.chain
    requires s.Idle? || s.node != n
    requires forall m :: m != n ==> (m in r.next <==> m in q.next) && (m in r.data <==> m in q.data)
    requires forall m :: m != n && m in r.next ==> r.next[m] == q.next[m]
    ensures ProducerOk(r, s)
  {
  }

  lemma AllocateKeepsInv<T>(q: Queue<T>, p: nat, addr: Node, item: T)
    requires Inv(q) && Enabled(q, Allocate(p, addr, item))
    ensures Inv(Apply(q, Allocate(p, addr, item)))
  {
    PrivateStepKeepsInv(q, Apply(q, Allocate(p, addr, item)), p);
  }

  lemma WriteDataKeepsInv<T>(q: Queue<T>, p: nat)
    requires Inv(q) && Enabled(q, WriteData(p))
    ensures Inv(Apply(q, WriteData(p)))
  {
    assert ProducerOk(q, q.producers[p]);
    PrivateStepKeepsInv(q, Apply(q, WriteData(p)), p);
  }

  lemma ClearNextKeepsInv<T>(q: Queue<T>, p: nat)
    requires Inv(q) && Enabled(q, ClearNext(p))
    ensures Inv(Apply(q, ClearNext(p)))
  {
    assert ProducerOk(q, q.producers[p]);
    PrivateStepKeepsInv(q, Apply(q, ClearNext(p)), p);
  }

  lemma ExchangeKeepsInv<T>(q: Queue<T>, p: nat)
    requires Inv(q) && Enabled(q, Exchange(p)) && ReadsInitialized(q, Exchange(p))
    ensures Inv(Apply(q, Exchange(p)))
  {
    hide ItemsOk, ConsumerOk, LinkOk, NotLeaked, ProducerOk, Pending;
    var r := Apply(q, Exchange(p));
    var n := q.producers[p].node;
    ExchangeKeepsChain(q, p);
    ExchangeKeepsItems(q, r, n);
    ExchangeKeepsLinks(q, p);
    ExchangeKeepsProducers(q, p);
    LeaksStay(q, r);
  }

  lemma ExchangeKeepsChain<T>(q: Queue<T>, p: nat)
    requires Inv(q) && Enabled(q, Exchange(p)) && ReadsInitialized(q, Exchange(p))
    ensures ChainOk(Apply(q, Exchange(p))) && ConsumerOk(Apply(q, Exchange(p)))
  {
    hide ItemsOk, LinkOk, NothingLeaks, Pending;
    assert ProducerOk(q, q.producers[p]);
  }

  lemma ExchangeKeepsProducers<T>(q: Queue<T>, p: nat)
    requires LinksOk(q) && ProducersOk(q) && Enabled(q, Exchange(p)) && ReadsInitialized(q, Exchange(p))
    ensures ProducersOk(Apply(q, Exchange(p)))
  {
    hide LinkOk;
    var r := Apply(q, Exchange(p));
    var n := q.producers[p].node;
    assert ProducerOk(q, q.producers[p]);
    assert r.chain[|q.chain| - 1] == q.head && r.chain[|q.chain|] == n;
    assert ProducerOk(r, r.producers[p]);
    forall w | 0 <= w < |q.producers| && w != p ensures ProducerOk(r, q.producers[w]) {
      assert ProducerOk(q, q.producers[w]);
      assert q.producers[w].Idle? || q.producers[w].node != n;
      ExtendedChainKeepsProducer(q, r, q.producers[w], n);
    }
    hide ProducerOk;
    ProducersStay(q, r, p);
  }

  lemma ExchangeKeepsItems<T>(q: Queue<T>, r: Queue<T>, n: Node)
    requires ItemsOk(q) && n in q.data && r.data == q.data && r.consumer == q.consumer && r.popped == q.popped
    requires r.chain == q.chain + [n] && r.pushed == q.pushed + [q.data[n]]
    ensures ItemsOk(r)
  {
    assert Pending(r) == Pending(q) + [n];
  }

  lemma SameItems<T>(q: Queue<T>, r: Queue<T>)
    requires ItemsOk(q) && r.chain == q.chain && r.pushed == q.pushed && r.popped == q.popped
    requires r.consumer.TookData? <==> q.consumer.TookData?
    requires forall n :: n in q.chain && n in q.data ==> n in r.data && r.data[n] == q.data[n]
    ensures ItemsOk(r)
  {
    assert Pending(r) == Pending(q);
    forall i | 0 <= i < |Pending(q)| ensures Pending(q)[i] in q.chain {
      assert Pending(q)[i] == q.chain[i + if q.consumer.TookData? then 2 else 1];
    }
  }

  lemma ExtendedChainKeepsProducer<T>(q: Queue<T>, r: Queue<T>, s: Producer<T>, n: Node)
    requires ProducerOk(q, s) && r.chain == q.chain + [n] && (s.Idle? || s.node != n)
    requires r.live == q.live && r.next == q.next && r.data == q.data
    ensures ProducerOk(r, s)
  {
    if s.Exchanged? {
      var i :| 0 <= i < |q.chain| - 1 && q.chain[i] == s.prev && q.chain[i + 1] == s.node;
      assert r.chain[i] == s.prev && r.chain[i + 1] == s.node;
    }
  }

  lemma ExchangeKeepsLinks<T>(q: Queue<T>, p: nat)
    requires Inv(q) && Enabled(q, Exchange(p)) && ReadsInitialized(q, Exchange(p))
    requires ChainOk(Apply(q, Exchange(p)))
    ensures LinksOk(Apply(q, Exchange(p)))
  {
    var r := Apply(q, Exchange(p));
    assert ProducerOk(q, q.producers[p]);
    forall i | 0 <= i < |r.chain| - 1 ensures LinkOk(r, i) {
      if i < |q.chain| - 1 {
        assert LinkOk(q, i);
        if q.next[q.chain[i]] == None {
          var w :| 0 <= w < |q.producers| && q.producers[w] == Exchanged(q.chain[i], q.chain[i + 1]);
          assert r.producers[w] == q.producers[w];
        }
      } else {
        assert r.producers[p] == Exchanged(r.chain[i], r.chain[i + 1]);
      }
    }
  }

  lemma LinkKeepsInv<T>(q: Queue<T>, p: nat)
    requires Inv(q) && Enabled(q, Link(p))
    ensures Inv(Apply(q, Link(p)))
  {
    hide ItemsOk, ConsumerOk, LinkOk, NotLeaked, Pending, ProducerOk;
    var r := Apply(q, Link(p));
    var at := LinkPlace(q, p);
    LinkKeepsConsumer(q, p, at);
    SameItems(q, r);
    LinkKeepsLinks(q, p, at);
    LinkKeepsProducers(q, p, at);
    LeaksStay(q, r);
  }

  lemma LinkPlace<T>(q: Queue<T>, p: nat) returns (at: nat)
    requires ProducersOk(q) && Enabled(q, Link(p))
    ensures 0 <= at < |q.chain| - 1 && q.chain[at] == q.producers[p].prev && q.chain[at + 1] == q.producers[p].node
    ensures q.producers[p].prev in q.next && q.next[q.producers[p].prev] == None
  {
    var s := q.producers[p];
    assert ProducerOk(q, s);
    at :| 0 <= at < |q.chain| - 1 && q.chain[at] == s.prev && q.chain[at + 1] == s.node;
  }

  lemma LinkKeepsConsumer<T>(q: Queue<T>, p: nat, at: nat)
    requires LinksOk(q) && ConsumerOk(q) && Enabled(q, Link(p))
    requires at < |q.chain| - 1 && q.chain[at] == q.producers[p].prev && q.chain[at + 1] == q.producers[p].node
    requires q.next[q.producers[p].prev] == None
    ensures ConsumerOk(Apply(q, Link(p)))
  {
    hide LinkOk;
  }

  lemma LinkKeepsProducers<T>(q: Queue<T>, p: nat, at: nat)
    requires LinksOk(q) && ProducersOk(q) && Enabled(q, Link(p))
    requires at < |q.chain| - 1 && q.chain[at] == q.producers[p].prev && q.chain[at + 1] == q.producers[p].node
    ensures ProducersOk(Apply(q, Link(p)))
  {
    hide LinkOk;
    var r := Apply(q, Link(p));
    forall w | 0 <= w < |q.producers| && w != p ensures ProducerOk(r, q.producers[w]) {
      LinkKeepsProducer(q, p, w, at);
    }
    assert ProducerOk(r, r.producers[p]);
    hide ProducerOk;
    ProducersStay(q, r, p);
  }

  lemma LinkKeepsLinks<T>(q: Queue<T>, p: nat, at: nat)
    requires LinksOk(q) && Enabled(q, Link(p))
    requires at < |q.chain| - 1 && q.chain[at] == q.producers[p].prev && q.chain[at + 1] == q.producers[p].node
    ensures LinksOk(Apply(q, Link(p)))
  {
    var r := Apply(q, Link(p));
    forall i | 0 <= i < |r.chain| - 1 ensures LinkOk(r, i) {
      assert LinkOk(q, i);
      if i != at && q.next[q.chain[i]] == None {
        var w :| 0 <= w < |q.producers| && q.producers[w] == Exchanged(q.chain[i], q.chain[i + 1]);
        assert r.producers[w] == q.producers[w];
      }
    }
  }

  /** Storing one producer's link leaves the others' links to be stored. */
  lemma LinkKeepsProducer<T>(q: Queue<T>, p: nat, w: nat, at: nat)
    requires ChainOk(q) && ProducersOk(q) && Enabled(q, Link(p)) && w < |q.producers| && w != p
    requires at < |q.chain| - 1 && q.chain[at] == q.producers[p].prev && q.chain[at + 1] == q.producers[p].node
    ensures ProducerOk(Apply(q, Link(p)), q.producers[w])
  {
    assert ProducerOk(q, q.producers[w]) && ProducerOk(q, q.producers[p]);
    if q.producers[w].Exchanged? {
      var i :| 0 <= i < |q.chain| - 1 && q.chain[i] == q.producers[w].prev && q.chain[i + 1] == q.producers[w].node;
      assert Owned(q.producers[w]) != Owned(q.producers[p]);
      assert i != at;
    }
  }

  lemma TakeDataKeepsInv<T>(q: Queue<T>)
    requires Inv(q) && Enabled(q, TakeData) && ReadsInitialized(q, TakeData)
    ensures Inv(Apply(q, TakeData))
  {
    var r := Apply(q, TakeData);
    TakeDataKeepsItems(q);
    assert ConsumerOk(r);
    forall w | 0 <= w < |q.producers| && !q.producers[w].Idle? ensures Untouched(q, r, q.producers[w]) {
      assert ProducerOk(q, q.producers[w]);
    }
    hide ItemsOk, ConsumerOk, LinkOk, NotLeaked, ProducerOk;
    ChainStays(q, r);
    LinksStay(q, r);
    ProducersKept(q, r);
    LeaksStay(q, r);
  }

  lemma TakeDataKeepsItems<T>(q: Queue<T>)
    requires Inv(q) && Enabled(q, TakeData) && ReadsInitialized(q, TakeData)
    ensures ItemsOk(Apply(q, TakeData))
  {
    hide LinkOk, ProducersOk, NothingLeaks;
    var r := Apply(q, TakeData);
    var before, after := Pending(q), Pending(r);
    assert before == [q.chain[1]] + after;
    assert Distinct(q.chain) && ItemsOk(q);
    hide Inv;
    assert q.data[before[0]] == q.pushed[|q.popped| + 0];
    forall i | 0 <= i < |after| ensures after[i] in r.data && r.data[after[i]] == r.pushed[|r.popped| + i] {
      assert after[i] == before[i + 1] == q.chain[i + 2];
    }
  }

  lemma StoreTailKeepsInv<T>(q: Queue<T>)
    requires Inv(q) && Enabled(q, StoreTail)
    ensures Inv(Apply(q, StoreTail))
  {
    hide ItemsOk, LinkOk, NotLeaked, ProducerOk, Pending;
    var r := Apply(q, StoreTail);
    StoreTailKeepsLinks(q);
    StoreTailKeepsItems(q);
    StoreTailKeepsProducers(q);
    LeaksStay(q, r);
  }

  lemma StoreTailKeepsLinks<T>(q: Queue<T>)
    requires LinksOk(q) && ConsumerOk(q) && Enabled(q, StoreTail)
    ensures LinksOk(Apply(q, StoreTail))
  {
    var r := Apply(q, StoreTail);
    assert ChainOk(r);
    forall i | 0 <= i < |r.chain| - 1 ensures LinkOk(r, i) {
      assert LinkOk(q, i + 1);
    }
  }

  lemma StoreTailKeepsItems<T>(q: Queue<T>)
    requires ItemsOk(q) && ChainOk(q) && ConsumerOk(q) && Enabled(q, StoreTail)
    ensures ItemsOk(Apply(q, StoreTail))
  {
    hide ItemsOk, ChainOk;
    StoreTailIs(q);
    var r := Apply(q, StoreTail);
    assert q.chain[1..][1..] == q.chain[2..];
    SamePendingItems(q, r);
  }

  lemma StoreTailIs<T>(q: Queue<T>)
    requires ItemsOk(q) && ConsumerOk(q) && Enabled(q, StoreTail)
    ensures var r := Apply(q, StoreTail);
            && q.consumer.TookData? && !r.consumer.TookData? && |q.chain| > 1 && r.chain == q.chain[1..]
            && r.data == q.data && r.pushed == q.pushed && r.popped == q.popped
  {
  }

  lemma SamePendingItems<T>(q: Queue<T>, r: Queue<T>)
    requires ItemsOk(q) && |r.chain| > 0 && !r.consumer.TookData? && Pending(r) == Pending(q)
    requires r.data == q.data && r.pushed == q.pushed && r.popped == q.popped
    ensures ItemsOk(r)
  {
  }

  lemma StoreTailKeepsProducers<T>(q: Queue<T>)
    requires LinksOk(q) && ProducersOk(q) && ConsumerOk(q) && Enabled(q, StoreTail)
    ensures ProducersOk(Apply(q, StoreTail)) && ConsumerOk(Apply(q, StoreTail))
  {
    hide LinkOk;
    var r := Apply(q, StoreTail);
    forall w | 0 <= w < |q.producers| ensures ProducerOk(r, q.producers[w]) && Owned(q.producers[w]) != Some(q.tail) {
      ShorterChainKeepsProducer(q, r, q.producers[w]);
    }
  }

  /** The node that leaves the chain has its link stored, so no producer is about to write it. */
  lemma ShorterChainKeepsProducer<T>(q: Queue<T>, r: Queue<T>, s: Producer<T>)
    requires LinksOk(q) && ConsumerOk(q) && q.consumer.TookData? && ProducerOk(q, s)
    requires r.chain == q.chain[1..] && r.live == q.live && r.next == q.next && r.data == q.data
    ensures ProducerOk(r, s) && Owned(s) != Some(q.tail)
  {
    if s.Exchanged? {
      var i :| 0 <= i < |q.chain| - 1 && q.chain[i] == s.prev && q.chain[i + 1] == s.node;
      assert i > 0;
      assert r.chain[i - 1] == s.prev && r.chain[i] == s.node;
    }
  }

  lemma DeleteTailKeepsInv<T>(q: Queue<T>)
    requires Inv(q) && Enabled(q, DeleteTail)
    ensures Inv(Apply(q, DeleteTail))
  {
    hide ItemsOk, LinkOk, NotLeaked, ProducerOk, Pending, Untouched;
    var r := Apply(q, DeleteTail);
    DeletedIsUntouched(q);
    SameItems(q, r);
    ChainStays(q, r);
    LinksStay(q, r);
    ProducersKept(q, r);
    LeaksStay(q, r);
  }

  lemma DeletedIsUntouched<T>(q: Queue<T>)
    requires LinksOk(q) && ProducersOk(q) && ConsumerOk(q) && Enabled(q, DeleteTail)
    ensures forall w :: 0 <= w < |q.producers| && !q.producers[w].Idle? ==>
              Untouched(q, Apply(q, DeleteTail), q.producers[w])
  {
    hide LinkOk;
    var r := Apply(q, DeleteTail);
    forall w | 0 <= w < |q.producers| && !q.producers[w].Idle? ensures Untouched(q, r, q.producers[w]) {
      assert ProducerOk(q, q.producers[w]);
    }
  }

  lemma StepKeepsInv<T>(q: Queue<T>, s: Step<T>)
    requires Inv(q) && Enabled(q, s)
    ensures ReadsInitialized(q, s) && Inv(Apply(q, s))
  {
    hide Inv;
    ReadsAreInitialized(q, s);
    match s
    case Allocate(p, addr, item) => AllocateKeepsInv(q, p, addr, item);
    case WriteData(p) => WriteDataKeepsInv(q, p);
    case ClearNext(p) => ClearNextKeepsInv(q, p);
    case Exchange(p) => ExchangeKeepsInv(q, p);
    case Link(p) => LinkKeepsInv(q, p);
    case LoadTail => LoadsKeepInv(q, s);
    case LoadNext => LoadsKeepInv(q, s);
    case TakeData => TakeDataKeepsInv(q);
    case StoreTail => StoreTailKeepsInv(q);
    case DeleteTail => DeleteTailKeepsInv(q);
  }

  lemma NewIsInv<T>(n: nat, stub: Node)
    ensures Inv(New<T>(n, stub))
  {
  }

  // ----- whole runs

  /** The steps can be taken one after the other. */
  ghost predicate CanRun<T>(q: Queue<T>, steps: seq<Step<T>>)
    decreases |steps|
  {
    steps != [] ==> Enabled(q, steps[0]) && ReadsInitialized(q, steps[0]) && CanRun(Apply(q, steps[0]), steps[1..])
  }

  ghost function Final<T>(q: Queue<T>, steps: seq<Step<T>>): Queue<T>
    requires CanRun(q, steps)
    decreases |steps|
  {
    if steps == [] then q else Final(Apply(q, steps[0]), steps[1..])
  }

  lemma {:induction false} RunKeepsInv<T>(q: Queue<T>, steps: seq<Step<T>>)
    requires Inv(q) && CanRun(q, steps)
    ensures Inv(Final(q, steps))
    decreases |steps|
  {
    hide Inv;
    if steps != [] {
      StepKeepsInv(q, steps[0]);
      RunKeepsInv(Apply(q, steps[0]), steps[1..]);
    }
  }

  /** No step of any run reads, writes or frees a node that is not allocated, or reads a field not yet written. */
  lemma EveryAccessIsSafe<T>(n: nat, stub: Node, steps: seq<Step<T>>, s: Step<T>)
    requires CanRun(New<T>(n, stub), steps) && Enabled(Final(New<T>(n, stub), steps), s)
    ensures var q := Final(New<T>(n, stub), steps);
            ReadsInitialized(q, s) && Accessed(q, s) <= q.live
  {
    NewIsInv<T>(n, stub);
    RunKeepsInv(New<T>(n, stub), steps);
    AccessIsSafe(Final(New<T>(n, stub), steps), s);
  }

  lemma AccessIsSafe<T>(q: Queue<T>, s: Step<T>)
    requires Inv(q) && Enabled(q, s)
    ensures ReadsInitialized(q, s) && Accessed(q, s) <= q.live
  {
    ReadsAreInitialized(q, s);
    match s
    case WriteData(p) => assert ProducerOk(q, q.producers[p]);
    case ClearNext(p) => assert ProducerOk(q, q.producers[p]);
    case Link(p) => assert ProducerOk(q, q.producers[p]);
    case _ =>
  }

  /** The items of the pushes that exchange the head in these steps, where held are the items being pushed. */
  ghost function Exchanges<T>(steps: seq<Step<T>>, held: map<nat, T>): seq<T>
    decreases |steps|
  {
    if steps == [] then []
    else
      match steps[0]
      case Allocate(p, _, item) => Exchanges(steps[1..], held[p := item])
      case Exchange(p) => (if p in held then [held[p]] else []) + Exchanges(steps[1..], held)
      case _ => Exchanges(steps[1..], held)
  }

  /** Each producer's node carries, or will carry, the item that producer is pushing. */
  ghost predicate HoldsItem<T>(q: Queue<T>, held: map<nat, T>, p: nat)
    requires p < |q.producers|
  {
    match q.producers[p]
    case Allocated(_, item) => p in held && held[p] == item
    case Filled(n) => p in held && n in q.data && q.data[n] == held[p]
    case Ready(n) => p in held && n in q.data && q.data[n] == held[p]
    case _ => true
  }

  ghost predicate HoldsItems<T>(q: Queue<T>, held: map<nat, T>) {
    forall p :: 0 <= p < |q.producers| ==> HoldsItem(q, held, p)
  }

  ghost function HeldAfter<T>(s: Step<T>, held: map<nat, T>): map<nat, T> {
    if s.Allocate? then held[s.p := s.item] else held
  }

  lemma StepKeepsItems<T>(q: Queue<T>, s: Step<T>, held: map<nat, T>)
    requires Inv(q) && HoldsItems(q, held) && Enabled(q, s) && ReadsInitialized(q, s)
    ensures HoldsItems(Apply(q, s), HeldAfter(s, held))
    ensures s.Exchange? ==> s.p in held
    ensures Apply(q, s).pushed == q.pushed + if s.Exchange? then [held[s.p]] else []
  {
    var r := Apply(q, s);
    if s.Exchange? {
      assert HoldsItem(q, held, s.p);
    }
    forall p | 0 <= p < |r.producers| ensures HoldsItem(r, HeldAfter(s, held), p) {
      assert HoldsItem(q, held, p) && ProducerOk(q, q.producers[p]);
    }
  }

  lemma {:induction false} RunPushesInOrder<T>(q: Queue<T>, steps: seq<Step<T>>, held: map<nat, T>)
    requires Inv(q) && HoldsItems(q, held) && CanRun(q, steps)
    ensures Final(q, steps).pushed == q.pushed + Exchanges(steps, held)
    decreases |steps|
  {
    hide Inv, HoldsItems, Enabled;
    if steps != [] {
      var s := steps[0];
      StepKeepsInv(q, s);
      StepKeepsItems(q, s, held);
      RunPushesInOrder(Apply(q, s), steps[1..], HeldAfter(s, held));
    }
  }

  /** The items popped are the first of these, and each of the others is in exactly one node still to be popped. */
  ghost predicate IsFifo<T>(q: Queue<T>, items: seq<T>) {
    && q.popped <= items
    && ItemsOk(q) && |items| == |q.popped| + |Pending(q)| && Distinct(Pending(q))
    && forall i :: 0 <= i < |Pending(q)| ==>
         Pending(q)[i] in q.data && q.data[Pending(q)[i]] == items[|q.popped| + i]
  }

  lemma InvIsFifo<T>(q: Queue<T>)
    requires Inv(q)
    ensures IsFifo(q, q.pushed)
  {
    SuffixIsDistinct(q.chain, if q.consumer.TookData? then 2 else 1);
    hide Distinct, LinksOk, ProducersOk, ConsumerOk, NothingLeaks;
  }

  lemma RunIsFifo<T>(q: Queue<T>, steps: seq<Step<T>>)
    requires Inv(q) && HoldsItems(q, map[]) && q.pushed == [] && CanRun(q, steps)
    ensures IsFifo(Final(q, steps), Exchanges(steps, map[]))
  {
    hide *;
    RunKeepsInv(q, steps);
    RunPushesInOrder(q, steps, map[]);
    InvIsFifo(Final(q, steps));
    assert [] + Exchanges(steps, map[]) == Exchanges(steps, map[]);
  }

  lemma NewHoldsNothing<T>(n: nat, stub: Node)
    ensures HoldsItems(New<T>(n, stub), map[]) && New<T>(n, stub).pushed == []
  {
  }

  /** In every run, items are popped in the order in which their pushes exchanged the head, none lost and none twice. */
  lemma EveryRunIsFifo<T>(n: nat, stub: Node, steps: seq<Step<T>>)
    requires CanRun(New<T>(n, stub), steps)
    ensures IsFifo(Final(New<T>(n, stub), steps), Exchanges(steps, map[]))
  {
    hide *;
    NewIsInv<T>(n, stub);
    NewHoldsNothing<T>(n, stub);
    RunIsFifo(New<T>(n, stub), steps);
  }

  lemma SuffixIsDistinct(s: seq<Node>, k: nat)
    requires Distinct(s) && k <= |s|
    ensures Distinct(s[k..])
  {
  }

  // ----- what the consumer can see

  /** The node k links after the tail. */
  ghost function Walk<T>(q: Queue<T>, k: nat): Option<Node> {
    if k == 0 then Some(q.tail)
    else
      match Walk(q, k - 1)
      case Some(n) => if n in q.next then q.next[n] else None
      case None => None
  }

  /** Once no push is between its exchange and its link, the links lead from the tail through the whole chain. */
  lemma {:induction false} LinkedPushesAreReachable<T>(q: Queue<T>, k: nat)
    requires Inv(q) && forall p :: 0 <= p < |q.producers| ==> !q.producers[p].Exchanged?
    ensures Walk(q, k) == if k < |q.chain| then Some(q.chain[k]) else None
  {
    if k > 0 {
      LinkedPushesAreReachable(q, k - 1);
      if k < |q.chain| {
        assert LinkOk(q, k - 1);
      }
    }
  }

  /** A pop that has loaded the tail finds nothing exactly when there is no push or the oldest is not linked yet. */
  lemma PopMissesExactly<T>(q: Queue<T>)
    requires Inv(q) && q.consumer.GotTail?
    ensures ReadsInitialized(q, LoadNext)
    ensures Apply(q, LoadNext).consumer.Waiting?
            <==> || |Pending(q)| == 0
                 || exists p :: 0 <= p < |q.producers| && q.producers[p] == Exchanged(q.tail, Pending(q)[0])
  {
    if |q.chain| > 1 {
      assert LinkOk(q, 0);
      if p :| 0 <= p < |q.producers| && q.producers[p] == Exchanged(q.tail, Pending(q)[0]) {
        assert ProducerOk(q, q.producers[p]);
      }
    }
  }

  /** What a producer inside push does next; an idle one begins with an address that is not in use. */
  function PushStep<T>(q: Queue<T>, p: nat, addr: Node, item: T): Step<T>
    requires p < |q.producers|
  {
    match q.producers[p]
    case Idle => Allocate(p, addr, item)
    case Allocated(_, _) => WriteData(p)
    case Filled(_) => ClearNext(p)
    case Ready(_) => Exchange(p)
    case Exchanged(_, _) => Link(p)
  }

  function PushRank<T>(s: Producer<T>): nat {
    match s
    case Idle => 0
    case Allocated(_, _) => 4
    case Filled(_) => 3
    case Ready(_) => 2
    case Exchanged(_, _) => 1
  }

  /**
   Pushing never waits: in every run, whatever all others do, each producer can take the next step of its
   push, which is one nearer to the end of it; five steps are a push.
   */
  lemma PushNeverWaits<T>(n: nat, stub: Node, steps: seq<Step<T>>, p: nat, addr: Node, item: T)
    requires CanRun(New<T>(n, stub), steps) && p < |Final(New<T>(n, stub), steps).producers|
    requires addr !in Final(New<T>(n, stub), steps).live
    ensures var q := Final(New<T>(n, stub), steps);
            var s := PushStep(q, p, addr, item);
            && Enabled(q, s) && ReadsInitialized(q, s)
            && var r := Apply(q, s);
            && |r.producers| == |q.producers|
            && PushRank(r.producers[p]) == (if q.producers[p].Idle? then 4 else PushRank(q.producers[p]) - 1)
            && forall w :: 0 <= w < |q.producers| && w != p ==> r.producers[w] == q.producers[w]
  {
    hide Inv, CanRun, Final;
    NewIsInv<T>(n, stub);
    RunKeepsInv(New<T>(n, stub), steps);
    ReadsAreInitialized(Final(New<T>(n, stub), steps), PushStep(Final(New<T>(n, stub), steps), p, addr, item));
  }

  function PopStep<T>(c: Consumer): Step<T> {
    match c
    case Waiting => LoadTail
    case GotTail(_) => LoadNext
    case GotNext(_, _) => TakeData
    case TookData(_, _) => StoreTail
    case Advanced(_) => DeleteTail
  }

  function PopRank(c: Consumer): nat {
    match c
    case Waiting => 0
    case GotTail(_) => 4
    case GotNext(_, _) => 3
    case TookData(_, _) => 2
    case Advanced(_) => 1
  }

  /** Neither does popping: it takes five steps, or two if it finds nothing. */
  lemma PopNeverWaits<T>(n: nat, stub: Node, steps: seq<Step<T>>)
    requires CanRun(New<T>(n, stub), steps)
    ensures var q := Final(New<T>(n, stub), steps);
            var s := PopStep(q.consumer);
            && Enabled(q, s) && ReadsInitialized(q, s)
            && var r := Apply(q, s);
            && r.producers == q.producers
            && (|| PopRank(r.consumer) == (if q.consumer.Waiting? then 4 else PopRank(q.consumer) - 1)
                || (q.consumer.GotTail? && r.consumer.Waiting? && r == q.(consumer := Waiting)))
  {
    hide Inv, CanRun, Final;
    NewIsInv<T>(n, stub);
    RunKeepsInv(New<T>(n, stub), steps);
    ReadsAreInitialized(Final(New<T>(n, stub), steps), PopStep(Final(New<T>(n, stub), steps).consumer));
  }

  // ----- the destructor

  ghost predicate Quiet<T>(q: Queue<T>) {
    q.consumer.Waiting? && forall p :: 0 <= p < |q.producers| ==> q.producers[p].Idle?
  }

  /** The steps of a pop that finds an item. */
  function PopSteps<T>(): seq<Step<T>> {
    [LoadTail, LoadNext, TakeData, StoreTail, DeleteTail]
  }

  lemma PopOnce<T>(q: Queue<T>)
    requires Inv(q) && Quiet(q) && |q.chain| > 1
    ensures CanRun(q, PopSteps())
    ensures var r := Final(q, PopSteps());
            && Inv(r) && Quiet(r) && r.chain == q.chain[1..] && r.pushed == q.pushed
            && r.popped == q.popped + [q.pushed[|q.popped|]]
  {
    assert LinkOk(q, 0);
    assert Pending(q)[0] == q.chain[1];
    assert q.data[q.chain[1]] == q.pushed[|q.popped| + 0];
    var q5 := PopRuns(q);
    hide Inv;
    RunKeepsInv(q, PopSteps());
  }

  /** The five steps of a pop whose link is stored. */
  lemma PopRuns<T>(q: Queue<T>) returns (r: Queue<T>)
    requires q.consumer.Waiting? && |q.chain| > 1
    requires q.tail in q.next && q.next[q.tail] == Some(q.chain[1]) && q.chain[1] in q.data
    ensures CanRun(q, PopSteps()) && r == Final(q, PopSteps())
    ensures r.consumer.Waiting? && r.producers == q.producers && r.chain == q.chain[1..] && r.pushed == q.pushed
    ensures r.popped == q.popped + [q.data[q.chain[1]]]
  {
    hide CanRun, Final, Apply, Enabled, ReadsInitialized, PopSteps;
    var q1, q2, q3, q4;
    q1, q2, q3, q4, r := PopStates(q);
    var s: seq<Step<T>> := PopSteps();
    PopStepsAre(s);
    NoStepsRun(r);
    Prepend(q4, DeleteTail, []);
    Prepend(q3, StoreTail, s[4..]);
    Prepend(q2, TakeData, s[3..]);
    Prepend(q1, LoadNext, s[2..]);
    Prepend(q, LoadTail, s[1..]);
  }

  lemma NoStepsRun<T>(q: Queue<T>)
    ensures CanRun(q, []) && Final(q, []) == q
  {
  }

  lemma PopStepsAre<T>(s: seq<Step<T>>)
    requires s == PopSteps()
    ensures |s| == 5 && s == [LoadTail] + s[1..] && s[1..] == [LoadNext] + s[2..] && s[2..] == [TakeData] + s[3..]
    ensures s[3..] == [StoreTail] + s[4..] && s[4..] == [DeleteTail] + []
  {
  }

  lemma PopStates<T>(q: Queue<T>) returns (q1: Queue<T>, q2: Queue<T>, q3: Queue<T>, q4: Queue<T>, r: Queue<T>)
    requires q.consumer.Waiting? && |q.chain| > 1
    requires q.tail in q.next && q.next[q.tail] == Some(q.chain[1]) && q.chain[1] in q.data
    ensures Enabled(q, LoadTail) && ReadsInitialized(q, LoadTail) && q1 == Apply(q, LoadTail)
    ensures Enabled(q1, LoadNext) && ReadsInitialized(q1, LoadNext) && q2 == Apply(q1, LoadNext)
    ensures Enabled(q2, TakeData) && ReadsInitialized(q2, TakeData) && q3 == Apply(q2, TakeData)
    ensures Enabled(q3, StoreTail) && ReadsInitialized(q3, StoreTail) && q4 == Apply(q3, StoreTail)
    ensures Enabled(q4, DeleteTail) && ReadsInitialized(q4, DeleteTail) && r == Apply(q4, DeleteTail)
    ensures r.consumer.Waiting? && r.producers == q.producers && r.chain == q.chain[1..] && r.pushed == q.pushed
    ensures r.popped == q.popped + [q.data[q.chain[1]]]
  {
    q1 := Apply(q, LoadTail);
    q2 := Apply(q1, LoadNext);
    q3 := Apply(q2, TakeData);
    q4 := Apply(q3, StoreTail);
    r := Apply(q4, DeleteTail);
  }

  lemma Prepend<T>(q: Queue<T>, s: Step<T>, rest: seq<Step<T>>)
    requires Enabled(q, s) && ReadsInitialized(q, s) && CanRun(Apply(q, s), rest)
    ensures CanRun(q, [s] + rest) && Final(q, [s] + rest) == Final(Apply(q, s), rest)
  {
    hide Enabled, Apply, ReadsInitialized;
    assert ([s] + rest)[1..] == rest;
  }

  lemma {:induction false} RunConcat<T>(q: Queue<T>, a: seq<Step<T>>, b: seq<Step<T>>)
    requires CanRun(q, a) && CanRun(Final(q, a), b)
    ensures CanRun(q, a + b) && Final(q, a + b) == Final(Final(q, a), b)
    decreases |a|
  {
    hide Enabled, Apply, ReadsInitialized;
    if a == [] {
      assert a + b == b;
    } else {
      assert (a + b)[0] == a[0] && (a + b)[1..] == a[1..] + b;
      RunConcat(Apply(q, a[0]), a[1..], b);
    }
  }

  /** Pops until nothing is left, after all producers have finished. */
  function DrainSteps<T>(k: nat): seq<Step<T>> {
    if k == 0 then [] else PopSteps() + DrainSteps(k - 1)
  }

  /**
   The destructor: popping until the queue is empty yields every item that was ever pushed, and
   deleting the one node that is left afterwards leaves nothing allocated.
   */
  lemma {:induction false} DrainingFreesEverything<T>(q: Queue<T>)
    requires Inv(q) && Quiet(q)
    ensures var steps := DrainSteps(|q.chain| - 1);
            && CanRun(q, steps)
            && var r := Final(q, steps);
            && r.popped == q.pushed && r.tail == r.head && r.live - {r.head} == {}
            && r.head in r.next && r.next[r.head] == None
    decreases |q.chain|
  {
    if |q.chain| > 1 {
      PopOnce(q);
      var r := Final(q, PopSteps());
      DrainingFreesEverything(r);
      RunConcat(q, PopSteps(), DrainSteps(|r.chain| - 1));
    } else {
      NothingElseIsLive(q);
    }
  }

  lemma NothingElseIsLive<T>(q: Queue<T>)
    requires Inv(q) && Quiet(q) && |q.chain| == 1
    ensures q.live - {q.head} == {} && q.popped == q.pushed && q.tail == q.head && q.next[q.head] == None
  {
    forall n | n in q.live ensures n == q.head {
      assert NotLeaked(q, n);
    }
  }
}
