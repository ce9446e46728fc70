/**
 What emitting a value does in a network of relays, properties and printers: which deliveries are
 made, in which order and with which values, and when the emission runs into a cycle.
 */
module Emission {
  import opened Wrappers
  import opened OperatorTable

  /** One call of an operator's on_next callback: the operators passed on the way to it, itself last. */
  datatype Delivery = Delivery(walk: seq<Handle>, value: Value)

  /** The deliveries made, and the walk whose last operator was found emitting, if any. */
  datatype Result = Result(log: seq<Delivery>, error: Option<seq<Handle>>)

  ghost predicate Closed(t: Table) {
    forall h, d :: h in t && d in t[h].downstream ==> d in t
  }

  /** Relays and properties pass on what they receive. */
  predicate Forwards(t: Table, h: Handle) {
    h in t && !t[h].status.IsCompleted() && !t[h].kind.Printer?
  }

  /** What an operator's callback is given: operators without an input schema receive the empty value. */
  function Received(r: Row, v: Value): Value {
    if r.inputSchema == EMPTY.schema then EMPTY else v
  }

  ghost function Elements(s: seq<Handle>): set<Handle> {
    set h | h in s
  }

  /** Emitting v from x, while the operators in the stack are emitting. */
  ghost function Emit(t: Table, stack: seq<Handle>, x: Handle, v: Value): Result
    requires Closed(t) && x in t
    decreases |t.Keys - Elements(stack)|, 2, 0
  {
    if t[x].status.IsCompleted() then Result([], None)
    else if x in stack then Result([], Some(stack + [x]))
    else
      Shrinks(t, stack, x);
      DeliverAll(t, stack + [x], t[x].downstream, v)
  }

  ghost function DeliverAll(t: Table, stack: seq<Handle>, elements: seq<Handle>, v: Value): Result
    requires Closed(t) && forall d :: d in elements ==> d in t
    decreases |t.Keys - Elements(stack)|, 4, |elements|
  {
    if elements == [] then Result([], None)
    else
      var first := Deliver(t, stack, elements[0], v);
      if first.error.Some? then first
      else
        var rest := DeliverAll(t, stack, elements[1..], v);
        Result(first.log + rest.log, rest.error)
  }

  ghost function Deliver(t: Table, stack: seq<Handle>, d: Handle, v: Value): Result
    requires Closed(t) && d in t
    decreases |t.Keys - Elements(stack)|, 3, 0
  {
    var received := Received(t[d], v);
    if t[d].status.IsCompleted() then Result([], None)
    else if t[d].kind.Printer? then Result([Delivery(stack + [d], received)], None)
    else
      var r := Emit(t, stack, d, received);
      Result([Delivery(stack + [d], received)] + r.log, r.error)
  }

  /** Fewer operators are idle once x is emitting. */
  lemma Shrinks(t: Table, stack: seq<Handle>, x: Handle)
    requires x in t && x !in stack
    ensures |t.Keys - Elements(stack + [x])| < |t.Keys - Elements(stack)|
  {
    var a, b := t.Keys - Elements(stack), t.Keys - Elements(stack + [x]);
    assert x in a && b == a - {x};
  }

  // ----- walks through the network

  ghost predicate IsWalk(t: Table, w: seq<Handle>) {
    && w != []
    && (forall i :: 0 <= i < |w| ==> w[i] in t)
    && (forall i :: 0 <= i < |w| - 1 ==> w[i + 1] in t[w[i]].downstream)
  }

  /** A walk from an operator that can emit through operators that pass the value on. */
  ghost predicate Carries(t: Table, w: seq<Handle>) {
    && IsWalk(t, w) && !t[w[0]].status.IsCompleted()
    && forall i :: 0 < i < |w| - 1 ==> Forwards(t, w[i])
  }

  /** A walk along which a value is delivered to its last operator. */
  ghost predicate Delivers(t: Table, w: seq<Handle>) {
    |w| > 1 && Carries(t, w) && !t[w[|w| - 1]].status.IsCompleted()
  }

  /** A walk that comes back to an operator it has passed before, which would have to emit again. */
  ghost predicate Cycles(t: Table, w: seq<Handle>) {
    |w| > 1 && Carries(t, w) && Forwards(t, w[|w| - 1]) && w[|w| - 1] in w[..|w| - 1]
  }

  /** The value that arrives at the end of a walk. */
  ghost function ValueAlong(t: Table, w: seq<Handle>, v: Value): Value
    requires IsWalk(t, w)
  {
    if |w| == 1 then v
    else
      WalkPrefix(t, w, |w| - 1);
      Received(t[w[|w| - 1]], ValueAlong(t, w[..|w| - 1], v))
  }

  lemma WalkPrefix(t: Table, w: seq<Handle>, n: nat)
    requires IsWalk(t, w) && 0 < n <= |w|
    ensures IsWalk(t, w[..n])
  {
  }

  // ----- an emission that reports a cycle has found one

  /** The stack is a walk of emitting operators, each but the first of which passes values on. */
  ghost predicate StackOk(t: Table, stack: seq<Handle>) {
    stack != [] ==> Carries(t, stack) && (|stack| > 1 ==> Forwards(t, stack[|stack| - 1]))
  }

  lemma {:induction false} PushStack(t: Table, stack: seq<Handle>, x: Handle)
    requires StackOk(t, stack) && x in t && !t[x].status.IsCompleted()
    requires stack != [] ==> x in t[stack[|stack| - 1]].downstream && Forwards(t, x)
    ensures StackOk(t, stack + [x])
  {
  }

  lemma {:induction false} EmitErrorCycles(t: Table, stack: seq<Handle>, x: Handle, v: Value)
    requires Closed(t) && x in t && StackOk(t, stack)
    requires stack != [] ==> x in t[stack[|stack| - 1]].downstream && Forwards(t, x)
    requires Emit(t, stack, x, v).error.Some?
    ensures Cycles(t, Emit(t, stack, x, v).error.value)
    ensures stack != [] ==> Emit(t, stack, x, v).error.value[0] == stack[0]
    ensures stack == [] ==> Emit(t, stack, x, v).error.value[0] == x
    decreases |t.Keys - Elements(stack)|, 2, 0
  {
    PushStack(t, stack, x);
    if x !in stack {
      Shrinks(t, stack, x);
      DeliverAllErrorCycles(t, stack + [x], t[x].downstream, v);
    } else {
      assert (stack + [x])[..|stack|] == stack;
    }
  }

  lemma {:induction false} DeliverAllErrorCycles(t: Table, stack: seq<Handle>, elements: seq<Handle>, v: Value)
    requires Closed(t) && stack != [] && StackOk(t, stack)
    requires forall d :: d in elements ==> d in t[stack[|stack| - 1]].downstream
    requires DeliverAll(t, stack, elements, v).error.Some?
    ensures Cycles(t, DeliverAll(t, stack, elements, v).error.value)
    ensures DeliverAll(t, stack, elements, v).error.value[0] == stack[0]
    decreases |t.Keys - Elements(stack)|, 4, |elements|
  {
    var d := elements[0];
    assert d in elements && forall e :: e in elements[1..] ==> e in elements;
    if Deliver(t, stack, d, v).error.Some? {
      EmitErrorCycles(t, stack, d, Received(t[d], v));
    } else {
      DeliverAllErrorCycles(t, stack, elements[1..], v);
    }
  }

  // ----- an emission that succeeds has met no cycle

  lemma {:induction false} DeliverAllSucceeds(t: Table, stack: seq<Handle>, elements: seq<Handle>, v: Value, d: Handle)
    requires Closed(t) && (forall d :: d in elements ==> d in t) && d in elements
    requires DeliverAll(t, stack, elements, v).error.None?
    ensures Deliver(t, stack, d, v).error.None?
    decreases |elements|
  {
    if d != elements[0] {
      DeliverAllSucceeds(t, stack, elements[1..], v, d);
    }
  }

  lemma {:induction false} SuccessMeansNoCycle(t: Table, stack: seq<Handle>, x: Handle, v: Value, w: seq<Handle>)
    requires Closed(t) && x in t && Emit(t, stack, x, v).error.None?
    requires |w| > 1 && Carries(t, w) && w[0] == x && Forwards(t, w[|w| - 1])
    ensures w[|w| - 1] !in stack + w[..|w| - 1]
    decreases |w|
  {
    var d := w[1];
    assert x !in stack;
    DeliverAllSucceeds(t, stack + [x], t[x].downstream, v, d);
    var received := Received(t[d], v);
    assert Forwards(t, d);
    assert Emit(t, stack + [x], d, received).error.None?;
    if |w| == 2 {
      assert w[..1] == [x];
    } else {
      var rest := w[1..];
      SuccessMeansNoCycle(t, stack + [x], d, received, rest);
      assert stack + [x] + rest[..|rest| - 1] == stack + w[..|w| - 1];
    }
  }

  /**
   Emitting from x with nothing else emitting fails exactly when a walk from x through relays
   comes back to an operator it has passed.
   */
  lemma FailsExactlyOnCycles(t: Table, x: Handle, v: Value)
    requires Closed(t) && x in t
    ensures Emit(t, [], x, v).error.Some? <==> exists w :: Cycles(t, w) && w[0] == x
  {
    if Emit(t, [], x, v).error.Some? {
      EmitErrorCycles(t, [], x, v);
    } else if w :| Cycles(t, w) && w[0] == x {
      assert [] + w[..|w| - 1] == w[..|w| - 1];
      if Emit(t, [], x, v).error.None? {
        SuccessMeansNoCycle(t, [], x, v, w);
      }
    }
  }

  // ----- the deliveries of an emission

  /** All deliveries go through the walk so far. */
  ghost predicate AllExtend(log: seq<Delivery>, walk: seq<Handle>) {
    forall e :: e in log ==> |e.walk| > |walk| && walk <= e.walk
  }

  lemma AllExtendShorter(log: seq<Delivery>, walk: seq<Handle>, x: Handle)
    requires AllExtend(log, walk + [x])
    ensures AllExtend(log, walk)
    ensures forall e :: e in log ==> e.walk[|walk|] == x
  {
    forall e | e in log ensures walk <= e.walk && e.walk[|walk|] == x {
      assert e.walk[..|walk|] == e.walk[..|walk| + 1][..|walk|];
    }
  }

  lemma {:induction false} EmitExtends(t: Table, stack: seq<Handle>, x: Handle, v: Value)
    requires Closed(t) && x in t
    ensures AllExtend(Emit(t, stack, x, v).log, stack + [x])
    decreases |t.Keys - Elements(stack)|, 2, 0
  {
    if !t[x].status.IsCompleted() && x !in stack {
      Shrinks(t, stack, x);
      DeliverAllExtends(t, stack + [x], t[x].downstream, v);
    }
  }

  lemma {:induction false} DeliverAllExtends(t: Table, stack: seq<Handle>, elements: seq<Handle>, v: Value)
    requires Closed(t) && forall d :: d in elements ==> d in t
    ensures var log := DeliverAll(t, stack, elements, v).log;
            AllExtend(log, stack) && forall e :: e in log ==> e.walk[|stack|] in elements
    decreases |t.Keys - Elements(stack)|, 4, |elements|
  {
    if elements != [] {
      DeliverExtends(t, stack, elements[0], v);
      DeliverAllExtends(t, stack, elements[1..], v);
    }
  }

  lemma {:induction false} DeliverExtends(t: Table, stack: seq<Handle>, d: Handle, v: Value)
    requires Closed(t) && d in t
    ensures var log := Deliver(t, stack, d, v).log;
            AllExtend(log, stack) && forall e :: e in log ==> e.walk[|stack|] == d
    decreases |t.Keys - Elements(stack)|, 3, 0
  {
    hide Emit;
    if !t[d].status.IsCompleted() && !t[d].kind.Printer? {
      EmitExtends(t, stack, d, Received(t[d], v));
      AllExtendShorter(Emit(t, stack, d, Received(t[d], v)).log, stack, d);
    }
  }

  ghost predicate DistinctWalks(log: seq<Delivery>) {
    forall i, j :: 0 <= i < j < |log| ==> log[i].walk != log[j].walk
  }

  lemma {:induction false} EmitDistinct(t: Table, stack: seq<Handle>, x: Handle, v: Value)
    requires Closed(t) && ListsOk(t) && x in t
    ensures DistinctWalks(Emit(t, stack, x, v).log)
    decreases |t.Keys - Elements(stack)|, 2, 0
  {
    if !t[x].status.IsCompleted() && x !in stack {
      Shrinks(t, stack, x);
      DeliverAllDistinct(t, stack + [x], t[x].downstream, v);
    }
  }

  lemma {:induction false} DeliverAllDistinct(t: Table, stack: seq<Handle>, elements: seq<Handle>, v: Value)
    requires Closed(t) && ListsOk(t) && (forall d :: d in elements ==> d in t) && NoDuplicates(elements)
    ensures DistinctWalks(DeliverAll(t, stack, elements, v).log)
    decreases |t.Keys - Elements(stack)|, 4, |elements|
  {
    if elements != [] {
      var first, rest := Deliver(t, stack, elements[0], v), DeliverAll(t, stack, elements[1..], v);
      DeliverDistinct(t, stack, elements[0], v);
      DeliverAllDistinct(t, stack, elements[1..], v);
      DeliverExtends(t, stack, elements[0], v);
      DeliverAllExtends(t, stack, elements[1..], v);
      assert DeliverAll(t, stack, elements, v).log == if first.error.Some? then first.log else first.log + rest.log;
      hide Deliver, DeliverAll, Closed, ListsOk;
      DistinctConcat(first.log, rest.log, |stack|, elements[0]);
    }
  }

  lemma DistinctConcat(a: seq<Delivery>, b: seq<Delivery>, n: nat, x: Handle)
    requires DistinctWalks(a) && DistinctWalks(b)
    requires forall e :: e in a ==> |e.walk| > n && e.walk[n] == x
    requires forall e :: e in b ==> |e.walk| > n && e.walk[n] != x
    ensures DistinctWalks(a + b)
  {
    var c := a + b;
    forall i, j | 0 <= i < j < |c| ensures c[i].walk != c[j].walk {
      if i < |a| <= j {
        assert c[i] in a && c[j] in b;
      }
    }
  }

  lemma {:induction false} DeliverDistinct(t: Table, stack: seq<Handle>, d: Handle, v: Value)
    requires Closed(t) && ListsOk(t) && d in t
    ensures DistinctWalks(Deliver(t, stack, d, v).log)
    decreases |t.Keys - Elements(stack)|, 3, 0
  {
    hide Emit, Closed, ListsOk;
    if !t[d].status.IsCompleted() && !t[d].kind.Printer? {
      EmitDistinct(t, stack, d, Received(t[d], v));
      EmitExtends(t, stack, d, Received(t[d], v));
    }
  }

  // ----- every delivery is along a walk, with the value that arrives there

  ghost predicate DeliveryOk(t: Table, v: Value, e: Delivery) {
    Delivers(t, e.walk) && e.value == ValueAlong(t, e.walk, v)
  }

  lemma {:induction false} EmitSound(t: Table, stack: seq<Handle>, x: Handle, v: Value, origin: Value)
    requires Closed(t) && x in t && StackOk(t, stack)
    requires stack != [] ==> x in t[stack[|stack| - 1]].downstream && Forwards(t, x)
    requires IsWalk(t, stack + [x]) && v == ValueAlong(t, stack + [x], origin)
    ensures forall e :: e in Emit(t, stack, x, v).log ==> DeliveryOk(t, origin, e)
    decreases |t.Keys - Elements(stack)|, 2, 0
  {
    if !t[x].status.IsCompleted() && x !in stack {
      Shrinks(t, stack, x);
      PushStack(t, stack, x);
      DeliverAllSound(t, stack + [x], t[x].downstream, v, origin);
    }
  }

  lemma {:induction false} DeliverAllSound(t: Table, stack: seq<Handle>, elements: seq<Handle>, v: Value, origin: Value)
    requires Closed(t) && stack != [] && StackOk(t, stack)
    requires forall d :: d in elements ==> d in t[stack[|stack| - 1]].downstream
    requires v == ValueAlong(t, stack, origin)
    ensures forall e :: e in DeliverAll(t, stack, elements, v).log ==> DeliveryOk(t, origin, e)
    decreases |t.Keys - Elements(stack)|, 4, |elements|
  {
    if elements != [] {
      assert elements[0] in elements && forall e :: e in elements[1..] ==> e in elements;
      DeliverSound(t, stack, elements[0], v, origin);
      DeliverAllSound(t, stack, elements[1..], v, origin);
      hide Deliver, DeliveryOk;
    }
  }

  lemma {:induction false} DeliverSound(t: Table, stack: seq<Handle>, d: Handle, v: Value, origin: Value)
    requires Closed(t) && stack != [] && StackOk(t, stack) && d in t[stack[|stack| - 1]].downstream
    requires v == ValueAlong(t, stack, origin)
    ensures forall e :: e in Deliver(t, stack, d, v).log ==> DeliveryOk(t, origin, e)
    decreases |t.Keys - Elements(stack)|, 3, 0
  {
    if !t[d].status.IsCompleted() {
      ExtendWalk(t, stack, d, origin);
      hide Emit, ValueAlong, StackOk, DeliveryOk;
      if !t[d].kind.Printer? {
        EmitSound(t, stack, d, Received(t[d], v), origin);
      }
    }
  }

  lemma {:induction false} ExtendWalk(t: Table, stack: seq<Handle>, d: Handle, origin: Value)
    requires Closed(t) && stack != [] && StackOk(t, stack) && d in t[stack[|stack| - 1]].downstream
    requires !t[d].status.IsCompleted()
    ensures IsWalk(t, stack + [d])
    ensures DeliveryOk(t, origin, Delivery(stack + [d], Received(t[d], ValueAlong(t, stack, origin))))
    ensures ValueAlong(t, stack + [d], origin) == Received(t[d], ValueAlong(t, stack, origin))
  {
    var w := stack + [d];
    assert w[..|w| - 1] == stack;
  }

  // ----- every walk gets its delivery

  lemma {:induction false} DeliverAllIncludes(t: Table, stack: seq<Handle>, elements: seq<Handle>, v: Value, d: Handle,
                                              e: Delivery)
    requires Closed(t) && (forall d :: d in elements ==> d in t) && d in elements
    requires DeliverAll(t, stack, elements, v).error.None? && e in Deliver(t, stack, d, v).log
    ensures e in DeliverAll(t, stack, elements, v).log
    decreases |elements|
  {
    if d != elements[0] {
      DeliverAllIncludes(t, stack, elements[1..], v, d, e);
    }
  }

  lemma {:induction false} EmitComplete(t: Table, stack: seq<Handle>, x: Handle, v: Value, w: seq<Handle>)
    returns (e: Delivery)
    requires Closed(t) && x in t && Emit(t, stack, x, v).error.None?
    requires Delivers(t, w) && w[0] == x
    ensures e in Emit(t, stack, x, v).log && e.walk == stack + w
    decreases |w|
  {
    var d := w[1];
    var received := Received(t[d], v);
    DeliverAllSucceeds(t, stack + [x], t[x].downstream, v, d);
    if |w| == 2 {
      e := Delivery(stack + [x] + [d], received);
      assert w == [x] + [d];
    } else {
      assert Forwards(t, d);
      e := EmitComplete(t, stack + [x], d, received, w[1..]);
      assert stack + [x] + w[1..] == stack + w;
    }
    DeliverAllIncludes(t, stack + [x], t[x].downstream, v, d, e);
  }

  /**
   An emission that meets no cycle delivers along every walk of relays from x exactly once, and
   what it delivers is the value that arrives along that walk.
   */
  lemma DeliversOncePerWalk(t: Table, x: Handle, v: Value)
    requires Closed(t) && ListsOk(t) && x in t && Emit(t, [], x, v).error.None?
    ensures var log := Emit(t, [], x, v).log;
            && DistinctWalks(log)
            && (forall w :: Delivers(t, w) && w[0] == x <==> exists e :: e in log && e.walk == w)
            && (forall e :: e in log ==> DeliveryOk(t, v, e))
  {
    var log := Emit(t, [], x, v).log;
    EmitDistinct(t, [], x, v);
    EmitSound(t, [], x, v, v);
    EmitExtends(t, [], x, v);
    hide Emit;
    forall w | Delivers(t, w) && w[0] == x ensures exists e :: e in log && e.walk == w {
      var e := EmitComplete(t, [], x, v, w);
      assert [] + w == w;
    }
    forall e | e in log ensures Delivers(t, e.walk) && e.walk[0] == x {
      assert DeliveryOk(t, v, e);
      assert [] + [x] <= e.walk;
    }
  }

  // ----- the table during an emission

  /**
   The value of h after some deliveries. A relay stores what it receives when it starts to emit,
   and so does the operator the emission starts from, unless the value has another schema.
   */
  ghost function Stored(t: Table, entries: seq<Delivery>, h: Handle): Value
    requires h in t
  {
    if entries == [] then t[h].value
    else
      var before := Stored(t, entries[..|entries| - 1], h);
      var e := entries[|entries| - 1];
      if Stores(t, e, h) && e.value.schema == before.schema then e.value else before
  }

  ghost predicate Stores(t: Table, e: Delivery, h: Handle)
    requires h in t
  {
    e.walk != [] && e.walk[|e.walk| - 1] == h && (|e.walk| == 1 || !t[h].kind.Printer?)
  }

  /** The rows when the operators in the stack are emitting. */
  ghost function During(t: Table, stack: seq<Handle>, entries: seq<Delivery>): Table {
    map h | h in t :: DuringRow(t, stack, entries, h)
  }

  ghost function DuringRow(t: Table, stack: seq<Handle>, entries: seq<Delivery>, h: Handle): Row
    requires h in t
  {
    t[h].(status := if h in stack then EmitterStatus.Emitting else t[h].status, value := Stored(t, entries, h))
  }

  /** Starting to emit: the status changes and the value is stored. */
  lemma {:induction false} StartsEmitting(t: Table, stack: seq<Handle>, entries: seq<Delivery>, x: Handle, v: Value)
    requires x in t && x !in stack && (stack == [] || !t[x].kind.Printer?)
    ensures var e := During(t, stack, entries);
            var row := e[x].(status := EmitterStatus.Emitting,
                             value := if v.schema == e[x].value.schema then v else e[x].value);
            e[x := row] == During(t, stack + [x], entries + [Delivery(stack + [x], v)])
  {
    var own := Delivery(stack + [x], v);
    assert (entries + [own])[..|entries|] == entries;
  }

  /** A printer stores nothing. */
  lemma {:induction false} PrinterStoresNothing(t: Table, stack: seq<Handle>, entries: seq<Delivery>, d: Handle,
                                                v: Value)
    requires stack != [] && d in t && t[d].kind.Printer?
    ensures During(t, stack, entries + [Delivery(stack + [d], v)]) == During(t, stack, entries)
  {
    assert (entries + [Delivery(stack + [d], v)])[..|entries|] == entries;
  }

  /** Ending an emission: only the status changes back. */
  lemma StopsEmitting(t: Table, stack: seq<Handle>, entries: seq<Delivery>, x: Handle)
    requires x in t && x !in stack && t[x].status.Idle?
    ensures var e := During(t, stack + [x], entries);
            e[x := e[x].(status := EmitterStatus.Idle)] == During(t, stack, entries)
  {
    hide Stored;
  }

  /** Where an emission leaves the table: the operators on the walk that failed are still emitting. */
  ghost function Left(t: Table, stack: seq<Handle>, entries: seq<Delivery>, r: Result): Table {
    match r.error
    case None => During(t, stack, entries)
    case Some(w) =>
      if w == [] || entries == [] then t
      else During(t, w[..|w| - 1], entries[..|entries| - 1])
  }

  lemma NothingEmitted(t: Table)
    ensures During(t, [], []) == t
  {
    forall h | h in t ensures DuringRow(t, [], [], h) == t[h] {
    }
  }

  lemma LeftIs(t: Table, stack: seq<Handle>, other: seq<Handle>, entries: seq<Delivery>, r: Result)
    ensures r.error.None? ==> Left(t, stack, entries, r) == During(t, stack, entries)
    ensures r.error.Some? ==> Left(t, stack, entries, r) == Left(t, other, entries, r)
  {
  }

  /** An emission that starts in a cycle changes nothing. */
  lemma LeftAtCycle(t: Table, stack: seq<Handle>, entries: seq<Delivery>, x: Handle, own: Delivery)
    ensures Left(t, stack, entries + [own] + [], Result([], Some(stack + [x]))) == During(t, stack, entries)
  {
    hide During;
    assert entries + [own] + [] == entries + [own];
    assert (entries + [own])[..|entries|] == entries && (stack + [x])[..|stack|] == stack;
  }

  lemma EmitIs(t: Table, stack: seq<Handle>, x: Handle, v: Value)
    requires Closed(t) && x in t
    ensures Emit(t, stack, x, v)
            == if t[x].status.IsCompleted() then Result([], None)
               else if x in stack then Result([], Some(stack + [x]))
               else DeliverAll(t, stack + [x], t[x].downstream, v)
  {
    if !t[x].status.IsCompleted() && x !in stack {
      Shrinks(t, stack, x);
    }
  }

  lemma DuringAt(t: Table, stack: seq<Handle>, entries: seq<Delivery>, h: Handle)
    requires h in t
    ensures h in During(t, stack, entries) && During(t, stack, entries)[h] == DuringRow(t, stack, entries, h)
  {
  }

  lemma SameErrorLeft(t: Table, stack: seq<Handle>, entries: seq<Delivery>, r: Result, s: Result)
    requires r.error == s.error
    ensures Left(t, stack, entries, r) == Left(t, stack, entries, s)
  {
  }

  lemma ClosedDownstream(t: Table, x: Handle)
    requires Closed(t) && x in t
    ensures forall d :: d in t[x].downstream ==> d in t
  {
  }

  lemma DeliverAllIs(t: Table, stack: seq<Handle>, elements: seq<Handle>, v: Value)
    requires Closed(t) && forall d :: d in elements ==> d in t
    ensures DeliverAll(t, stack, elements, v)
            == if elements == [] then Result([], None)
               else
                 var first := Deliver(t, stack, elements[0], v);
                 if first.error.Some? then first
                 else
                   var rest := DeliverAll(t, stack, elements[1..], v);
                   Result(first.log + rest.log, rest.error)
  {
  }
}
