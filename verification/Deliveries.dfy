/** What an emission delivers, said without following it: which values, in which order, and of which schema. */
module Deliveries {
  import opened Wrappers
  import opened OperatorTable
  import opened Emission

  // ----- values

  /** On the way from its first operator the walk meets one without an input schema. */
  ghost predicate Cleared(t: Table, w: seq<Handle>) {
    exists i :: 0 < i < |w| && w[i] in t && t[w[i]].inputSchema == EMPTY.schema
  }

  /** The emitted value arrives unchanged, unless an operator without an input schema was on the way. */
  lemma {:induction false} ValueAtTheEnd(t: Table, w: seq<Handle>, v: Value)
    requires IsWalk(t, w)
    ensures ValueAlong(t, w, v) == if Cleared(t, w) then EMPTY else v
    decreases |w|
  {
    if |w| > 1 {
      var front, last := w[..|w| - 1], w[|w| - 1];
      WalkPrefix(t, w, |w| - 1);
      ValueAtTheEnd(t, front, v);
      if Cleared(t, front) {
        var i :| 0 < i < |front| && front[i] in t && t[front[i]].inputSchema == EMPTY.schema;
        assert w[i] == front[i];
      }
      if t[last].inputSchema != EMPTY.schema && Cleared(t, w) {
        var i :| 0 < i < |w| && w[i] in t && t[w[i]].inputSchema == EMPTY.schema;
        assert i < |front| && front[i] == w[i];
      }
    }
  }

  /** Every delivery, also of an emission that runs into a cycle, has this value. */
  lemma LogHoldsValues(t: Table, x: Handle, v: Value)
    requires Closed(t) && x in t
    ensures forall e :: e in Emit(t, [], x, v).log ==>
              Delivers(t, e.walk) && e.walk[0] == x && e.value == if Cleared(t, e.walk) then EMPTY else v
  {
    hide Emit, Cleared, Delivers;
    assert [] + [x] == [x];
    EmitSound(t, [], x, v, v);
    EmitExtends(t, [], x, v);
    forall e | e in Emit(t, [], x, v).log
      ensures Delivers(t, e.walk) && e.walk[0] == x && e.value == if Cleared(t, e.walk) then EMPTY else v
    {
      assert DeliveryOk(t, v, e);
      DeliversIsWalk(t, e.walk);
      ValueAtTheEnd(t, e.walk, v);
    }
  }

  lemma DeliversIsWalk(t: Table, w: seq<Handle>)
    requires Delivers(t, w)
    ensures IsWalk(t, w)
  {
  }

  // ----- order

  /** Where the walks part, a goes to an earlier subscriber than b; or b goes on where a ends. */
  ghost predicate Precedes(t: Table, a: seq<Handle>, b: seq<Handle>) {
    exists k :: 0 < k <= |a| && k < |b| && a[..k] == b[..k]
                && (k < |a| ==> a[k - 1] in t && Earlier(t[a[k - 1]].downstream, a[k], b[k]))
  }

  ghost predicate Earlier(s: seq<Handle>, x: Handle, y: Handle) {
    exists i, j :: 0 <= i < j < |s| && s[i] == x && s[j] == y
  }

  ghost predicate Ordered(t: Table, log: seq<Delivery>) {
    forall i, j :: 0 <= i < j < |log| ==> Precedes(t, log[i].walk, log[j].walk)
  }

  lemma {:induction false} EmitIsOrdered(t: Table, stack: seq<Handle>, x: Handle, v: Value)
    requires Closed(t) && x in t
    ensures Ordered(t, Emit(t, stack, x, v).log)
    decreases |t.Keys - Elements(stack)|, 2, 0
  {
    hide Deliver, Precedes;
    if !t[x].status.IsCompleted() && x !in stack {
      Shrinks(t, stack, x);
      assert t[x].downstream[0..] == t[x].downstream;
      DeliverAllIsOrdered(t, stack + [x], 0, v);
    }
  }

  /** The deliveries of the loop from the n-th subscriber on. */
  lemma {:induction false} DeliverAllIsOrdered(t: Table, stack: seq<Handle>, n: nat, v: Value)
    requires Closed(t) && stack != [] && stack[|stack| - 1] in t && n <= |t[stack[|stack| - 1]].downstream|
    ensures Ordered(t, DeliverAll(t, stack, t[stack[|stack| - 1]].downstream[n..], v).log)
    decreases |t.Keys - Elements(stack)|, 4, |t[stack[|stack| - 1]].downstream| - n
  {
    hide Deliver, Precedes, Closed;
    var s := t[stack[|stack| - 1]].downstream;
    var elements := s[n..];
    ClosedDownstream(t, stack[|stack| - 1]);
    DeliverAllIs(t, stack, elements, v);
    if elements != [] {
      assert elements[1..] == s[n + 1..];
      var first, rest := Deliver(t, stack, elements[0], v), DeliverAll(t, stack, s[n + 1..], v);
      DeliverIsOrdered(t, stack, elements[0], v);
      DeliverAllIsOrdered(t, stack, n + 1, v);
      DeliverExtends(t, stack, elements[0], v);
      DeliverAllExtends(t, stack, s[n + 1..], v);
      LoopIsOrdered(t, stack, n, first.log, rest.log);
    }
  }

  lemma LoopIsOrdered(t: Table, stack: seq<Handle>, n: nat, a: seq<Delivery>, b: seq<Delivery>)
    requires stack != [] && stack[|stack| - 1] in t && n < |t[stack[|stack| - 1]].downstream|
    requires Ordered(t, a) && Ordered(t, b) && AllExtend(a, stack) && AllExtend(b, stack)
    requires forall e :: e in a ==> e.walk[|stack|] == t[stack[|stack| - 1]].downstream[n]
    requires forall e :: e in b ==> e.walk[|stack|] in t[stack[|stack| - 1]].downstream[n + 1..]
    ensures Ordered(t, a + b)
  {
    hide Precedes;
    var log := a + b;
    forall i, j | 0 <= i < j < |log| ensures Precedes(t, log[i].walk, log[j].walk) {
      if i < |a| <= j {
        assert log[i] in a && log[j] in b;
        LaterSubscriber(t, stack, n, log[i].walk, log[j].walk);
      } else if i >= |a| {
        assert log[i] == b[i - |a|] && log[j] == b[j - |a|];
      }
    }
  }

  lemma LaterSubscriber(t: Table, stack: seq<Handle>, n: nat, a: seq<Handle>, b: seq<Handle>)
    requires stack != [] && stack[|stack| - 1] in t && n < |t[stack[|stack| - 1]].downstream|
    requires |stack| < |a| && |stack| < |b| && stack <= a && stack <= b
    requires a[|stack|] == t[stack[|stack| - 1]].downstream[n]
    requires b[|stack|] in t[stack[|stack| - 1]].downstream[n + 1..]
    ensures Precedes(t, a, b)
  {
    var s, k := t[stack[|stack| - 1]].downstream, |stack|;
    var j :| 0 <= j < |s[n + 1..]| && s[n + 1..][j] == b[k];
    assert s[n + 1 + j] == b[k] && Earlier(s, a[k], b[k]);
    assert a[..k] == stack == b[..k] && a[k - 1] == stack[k - 1];
  }

  lemma {:induction false} DeliverIsOrdered(t: Table, stack: seq<Handle>, d: Handle, v: Value)
    requires Closed(t) && d in t && stack != []
    ensures Ordered(t, Deliver(t, stack, d, v).log)
    decreases |t.Keys - Elements(stack)|, 3, 0
  {
    hide Emit, Precedes;
    if !t[d].status.IsCompleted() && !t[d].kind.Printer? {
      var r := Emit(t, stack, d, Received(t[d], v));
      EmitIsOrdered(t, stack, d, Received(t[d], v));
      EmitExtends(t, stack, d, Received(t[d], v));
      var log := Deliver(t, stack, d, v).log;
      forall i, j | 0 <= i < j < |log| ensures Precedes(t, log[i].walk, log[j].walk) {
        if i == 0 {
          assert log[j] == r.log[j - 1] && log[j] in r.log;
          Continues(t, stack + [d], log[j].walk);
        } else {
          assert log[i] == r.log[i - 1] && log[j] == r.log[j - 1];
        }
      }
    }
  }

  lemma Continues(t: Table, a: seq<Handle>, b: seq<Handle>)
    requires a != [] && |a| < |b| && a <= b
    ensures Precedes(t, a, b)
  {
    assert a[..|a|] == b[..|a|];
  }

  /** Deliveries come depth first, and to the subscribers of one operator in the order in which they are listed. */
  lemma DeliversDepthFirst(t: Table, x: Handle, v: Value)
    requires Closed(t) && x in t
    ensures Ordered(t, Emit(t, [], x, v).log)
  {
    EmitIsOrdered(t, [], x, v);
  }

  // ----- what is stored

  /** The i-th delivery is the last one of a value that h can store. */
  ghost predicate LastStored(t: Table, entries: seq<Delivery>, h: Handle, i: nat)
    requires h in t
  {
    && i < |entries| && Stores(t, entries[i], h) && entries[i].value.schema == t[h].value.schema
    && forall j :: i < j < |entries| && Stores(t, entries[j], h) ==> entries[j].value.schema != t[h].value.schema
  }

  /** In the end an operator holds the last value of its own schema that it was to store, or what it held before. */
  lemma {:induction false} StoredIsLast(t: Table, entries: seq<Delivery>, h: Handle)
    requires h in t
    ensures Stored(t, entries, h).schema == t[h].value.schema
    ensures forall i: nat :: LastStored(t, entries, h, i) ==> Stored(t, entries, h) == entries[i].value
    ensures (forall i: nat :: !LastStored(t, entries, h, i)) ==> Stored(t, entries, h) == t[h].value
    decreases |entries|
  {
    if entries != [] {
      var n := |entries| - 1;
      var front := entries[..n];
      StoredIsLast(t, front, h);
      hide Stores;
      if Stores(t, entries[n], h) && entries[n].value.schema == t[h].value.schema {
        assert LastStored(t, entries, h, n);
        assert forall i: nat :: LastStored(t, entries, h, i) ==> i == n;
      } else {
        forall i: nat ensures LastStored(t, entries, h, i) <==> LastStored(t, front, h, i) {
          SameLast(t, entries, h, i);
        }
        assert forall i: nat :: LastStored(t, front, h, i) ==> front[i] == entries[i];
      }
    }
  }

  lemma SameLast(t: Table, entries: seq<Delivery>, h: Handle, i: nat)
    requires h in t && entries != []
    requires var e := entries[|entries| - 1]; !(Stores(t, e, h) && e.value.schema == t[h].value.schema)
    ensures LastStored(t, entries, h, i) <==> LastStored(t, entries[..|entries| - 1], h, i)
  {
    hide Stores;
    var front := entries[..|entries| - 1];
    forall j | 0 <= j < |front| ensures front[j] == entries[j] {
    }
  }

  /** The value is the last one of the schema of h that h was to store, or the one before all deliveries. */
  ghost predicate HoldsLast(t: Table, entries: seq<Delivery>, h: Handle, value: Value)
    requires h in t
  {
    && (forall i: nat :: LastStored(t, entries, h, i) ==> value == entries[i].value)
    && ((forall i: nat :: !LastStored(t, entries, h, i)) ==> value == t[h].value)
  }

  /** After a successful emission from x nothing but values has changed. */
  ghost predicate OnlyStores(t: Table, entries: seq<Delivery>, after: Table) {
    && after.Keys == t.Keys
    && forall h :: h in t ==> after[h] == t[h].(value := after[h].value) && HoldsLast(t, entries, h, after[h].value)
  }

  lemma EmissionOnlyStores(t: Table, entries: seq<Delivery>)
    ensures OnlyStores(t, entries, During(t, [], entries))
  {
    hide Stored, HoldsLast;
    var after := During(t, [], entries);
    forall h | h in t ensures after[h] == t[h].(value := after[h].value) && HoldsLast(t, entries, h, after[h].value) {
      StoredHoldsLast(t, entries, h);
    }
  }

  lemma StoredHoldsLast(t: Table, entries: seq<Delivery>, h: Handle)
    requires h in t
    ensures HoldsLast(t, entries, h, Stored(t, entries, h))
  {
    StoredIsLast(t, entries, h);
  }

  // ----- schemas

  /**
   Every subscriber without or with the input schema of what its upstream operator emits, and operators that
   pass values on emit the schema that they receive, as the constructors of relays and properties make them.
   */
  ghost predicate Fitting(t: Table) {
    && (forall h, d :: h in t && d in t[h].downstream && d in t ==> Fits(t[h], t[d]))
    && (forall h :: h in t && !t[h].kind.Printer? ==> t[h].inputSchema == t[h].value.schema)
  }

  predicate Fits(upstream: Row, downstream: Row) {
    downstream.inputSchema == EMPTY.schema || upstream.value.schema == downstream.inputSchema
  }

  /** An operator that is not multicast has at most one subscriber. */
  ghost predicate Unshared(t: Table) {
    forall h :: h in t && !t[h].multicast ==> |t[h].downstream| <= 1
  }

  /** If values of its schema enter a fitting network, every operator is given values of its input schema. */
  lemma DeliveredValuesFit(t: Table, x: Handle, v: Value)
    requires Closed(t) && Fitting(t) && x in t && v.schema == t[x].value.schema
    ensures forall e :: e in Emit(t, [], x, v).log ==>
              e.walk != [] && e.walk[|e.walk| - 1] in t && e.value.schema == t[e.walk[|e.walk| - 1]].inputSchema
  {
    hide Emit, Fitting, ValueAlong;
    assert [] + [x] == [x];
    OneStep(t, x, v);
    EmitSound(t, [], x, v, v);
    EmitExtends(t, [], x, v);
    forall e | e in Emit(t, [], x, v).log
      ensures e.walk != [] && e.walk[|e.walk| - 1] in t && e.value.schema == t[e.walk[|e.walk| - 1]].inputSchema
    {
      assert DeliveryOk(t, v, e);
      ValueAlongFits(t, e.walk, v);
    }
  }

  lemma OneStep(t: Table, x: Handle, v: Value)
    ensures x in t ==> ValueAlong(t, [x], v) == v
  {
  }

  lemma {:induction false} ValueAlongFits(t: Table, w: seq<Handle>, v: Value)
    requires Fitting(t) && Carries(t, w) && v.schema == t[w[0]].value.schema
    ensures |w| > 1 ==> ValueAlong(t, w, v).schema == t[w[|w| - 1]].inputSchema
    decreases |w|
  {
    if |w| > 1 {
      var front, last := w[..|w| - 1], w[|w| - 1];
      WalkPrefix(t, w, |w| - 1);
      ValueAlongFits(t, front, v);
      var u := front[|front| - 1];
      assert u == w[|w| - 2] && last in t[u].downstream && Fits(t[u], t[last]);
      if |w| > 2 {
        assert Forwards(t, w[|w| - 2]);
      }
    }
  }
}
