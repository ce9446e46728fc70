/** The operators of an application: subscribing, unsubscribing and removing them in place. */
module OperatorNetwork {
  import opened Wrappers
  import opened OperatorTable
  import opened Removal
  import opened Emission
  import opened Deliveries

  // ----- edges

  ghost function Appended(s: seq<Handle>, h: Handle): seq<Handle> {
    if h in s then s else s + [h]
  }

  /** Before the emission nothing was emitting, and only idle operators have started to. */
  ghost predicate Quiescent(t: Table, stack: seq<Handle>) {
    && (forall h :: h in t ==> !t[h].status.IsActive())
    && (forall h :: h in stack ==> h in t && t[h].status.Idle?)
  }

  ghost predicate Accepts(t: Table, self: Handle, downstream: Handle)
    requires self in t && downstream in t
  {
    && (t[downstream].inputSchema == EMPTY.schema || t[self].value.schema == t[downstream].inputSchema)
    && if t[self].status.IsCompleted() then t[self].external else t[self].downstream == [] || t[self].multicast
  }

  ghost function WithEdge(t: Table, u: Handle, d: Handle): Table
    requires u in t && d in t
  {
    var t1 := t[u := t[u].(downstream := Appended(t[u].downstream, d))];
    t1[d := t1[d].(upstream := Appended(t1[d].upstream, u))]
  }

  /** A new edge is listed on both sides. */
  lemma WithEdgeIsSymmetric(t: Table, u: Handle, d: Handle)
    requires Symmetric(t) && u in t && d in t
    ensures Symmetric(WithEdge(t, u, d))
  {
    hide WithEdge, EdgesAdded;
    var r := WithEdge(t, u, d);
    WithEdgeKeepsKeys(t, u, d);
    forall h | h in t ensures EdgesAdded(t, r, u, d, h) {
      WithEdgeAdds(t, u, d, h);
    }
    AddedIsSymmetric(t, r, u, d);
  }

  /** An accepted edge fits, and is the only one of an operator that is not multicast. */
  lemma AcceptedEdgeFits(t: Table, u: Handle, d: Handle)
    requires u in t && d in t && Accepts(t, u, d) && !t[u].status.IsCompleted() && Fitting(t) && Unshared(t)
    ensures Fitting(WithEdge(t, u, d)) && Unshared(WithEdge(t, u, d))
  {
    var r := WithEdge(t, u, d);
    forall h, e | h in r && e in r[h].downstream && e in r ensures Fits(r[h], r[e]) {
      WithEdgeAdds(t, u, d, h);
      assert e in t[h].downstream ==> Fits(t[h], t[e]);
    }
  }

  /** Removing operators keeps that. */
  lemma PrunedFits(t: Table, gone: set<Handle>)
    requires Fitting(t) && Unshared(t)
    ensures Fitting(Pruned(t, gone)) && Unshared(Pruned(t, gone))
  {
    hide Without;
    var r := Pruned(t, gone);
    forall h, e | h in r && e in r[h].downstream && e in r ensures Fits(r[h], r[e]) {
      assert Fits(t[h], t[e]);
    }
    forall h | h in r && !r[h].multicast ensures |r[h].downstream| <= 1 {
      WithoutIsNotLonger(t[h].downstream, gone);
    }
  }

  lemma {:induction false} WithoutIsNotLonger(s: seq<Handle>, gone: set<Handle>)
    ensures |Without(s, gone)| <= |s|
  {
    if s != [] {
      WithoutIsNotLonger(s[1..], gone);
    }
  }

  /** And so do emissions. */
  lemma EmissionFits(t: Table, entries: seq<Delivery>)
    requires Fitting(t) && Unshared(t)
    ensures Fitting(During(t, [], entries)) && Unshared(During(t, [], entries))
  {
    hide Stored;
    var r := During(t, [], entries);
    forall h | h in t ensures r[h].value.schema == t[h].value.schema {
      StoredIsLast(t, entries, h);
    }
    forall h, e | h in r && e in r[h].downstream && e in r ensures Fits(r[h], r[e]) {
      assert Fits(t[h], t[e]);
    }
  }

  lemma WithEdgeIs(t: Table, u: Handle, d: Handle)
    requires u in t && d in t
    ensures var t1 := t[u := t[u].(downstream := Appended(t[u].downstream, d))];
            WithEdge(t, u, d) == t1[d := t1[d].(upstream := Appended(t1[d].upstream, u))]
  {
  }

  lemma WithEdgeKeepsKeys(t: Table, u: Handle, d: Handle)
    requires u in t && d in t
    ensures WithEdge(t, u, d).Keys == t.Keys
  {
  }

  lemma AddedIsSymmetric(t: Table, r: Table, u: Handle, d: Handle)
    requires Symmetric(t) && u in t && d in t && r.Keys == t.Keys
    requires forall h :: h in t ==> EdgesAdded(t, r, u, d, h)
    ensures Symmetric(r)
  {
    hide EdgesAdded, NoDuplicates, UpstreamMirrored, DownstreamMirrored;
    forall h | h in r ensures DownstreamMirrored(r, h) {
      AddedIsMirroredDown(t, r, u, d, h);
    }
    AddedIsMirroredUp(t, r, u, d);
    forall h | h in r ensures NoDuplicates(r[h].upstream) && NoDuplicates(r[h].downstream) {
      AddedOnce(t, r, u, d, h);
    }
  }

  lemma AddedIsMirroredDown(t: Table, r: Table, u: Handle, d: Handle, h: Handle)
    requires u in t && d in t && r.Keys == t.Keys && h in t && DownstreamMirrored(t, h)
    requires forall x :: x in t ==> EdgesAdded(t, r, u, d, x)
    ensures DownstreamMirrored(r, h)
  {
    hide EdgesAdded, NoDuplicates;
    EdgesOf(t, r, u, d, h);
    forall x | x in r[h].downstream ensures x in r && h in r[x].upstream {
      EdgesOf(t, r, u, d, x);
    }
  }

  lemma AddedIsMirroredUp(t: Table, r: Table, u: Handle, d: Handle)
    requires u in t && d in t && r.Keys == t.Keys && UpstreamMirrored(t)
    requires forall x :: x in t ==> EdgesAdded(t, r, u, d, x)
    ensures UpstreamMirrored(r)
  {
    hide EdgesAdded, NoDuplicates;
    forall h, x | h in r && x in r[h].upstream ensures x in r && h in r[x].downstream {
      EdgesOf(t, r, u, d, h);
      EdgesOf(t, r, u, d, x);
    }
  }

  lemma EdgesOf(t: Table, r: Table, u: Handle, d: Handle, h: Handle)
    requires h in t && h in r && EdgesAdded(t, r, u, d, h)
    ensures forall x :: x in r[h].upstream <==> x in t[h].upstream || (h == d && x == u)
    ensures forall x :: x in r[h].downstream <==> x in t[h].downstream || (h == u && x == d)
  {
    hide NoDuplicates;
  }

  lemma AddedOnce(t: Table, r: Table, u: Handle, d: Handle, h: Handle)
    requires h in t && h in r && EdgesAdded(t, r, u, d, h)
    ensures NoDuplicates(t[h].upstream) ==> NoDuplicates(r[h].upstream)
    ensures NoDuplicates(t[h].downstream) ==> NoDuplicates(r[h].downstream)
  {
    hide NoDuplicates;
  }

  lemma WithEdgeAdds(t: Table, u: Handle, d: Handle, h: Handle)
    requires u in t && d in t && h in t
    ensures EdgesAdded(t, WithEdge(t, u, d), u, d, h)
  {
  }

  ghost predicate EdgesAdded(t: Table, r: Table, u: Handle, d: Handle, h: Handle)
    requires h in t && h in r
  {
    && (NoDuplicates(t[h].upstream) ==> NoDuplicates(r[h].upstream))
    && (NoDuplicates(t[h].downstream) ==> NoDuplicates(r[h].downstream))
    && (forall x :: x in r[h].upstream <==> x in t[h].upstream || (h == d && x == u))
    && (forall x :: x in r[h].downstream <==> x in t[h].downstream || (h == u && x == d))
  }

  lemma {:induction false} CutEdgeIsConsistent(t: Table, dying: set<Handle>, u: Handle, d: Handle)
    requires u in t && d in t && u in t[d].upstream && Consistent(t, dying)
    ensures Consistent(CutEdge(t, u, d), dying) && u !in dying
  {
    hide Without, NoDuplicates;
    var r := CutEdge(t, u, d);
    WithoutKeepsNoDuplicates(t[d].upstream, {u});
    WithoutKeepsNoDuplicates(t[u].downstream, {d});
    assert r.Keys == t.Keys;
    forall h | h in t ensures EdgesCut(t, r, u, d, h) {
    }
    hide CutEdge;
    forall h | h in r && h !in dying ensures DownstreamMirrored(r, h) {
      assert DownstreamMirrored(t, h) && EdgesCut(t, r, u, d, h);
      forall x | x in r[h].downstream ensures x in r && h in r[x].upstream {
        assert EdgesCut(t, r, u, d, x);
      }
    }
    forall h, x | h in r && x in r[h].upstream ensures x in r && h in r[x].downstream {
      assert EdgesCut(t, r, u, d, h) && EdgesCut(t, r, u, d, x);
    }
    forall h | h in r ensures NoDuplicates(r[h].upstream) && NoDuplicates(r[h].downstream) {
      assert EdgesCut(t, r, u, d, h);
    }
    forall h | h in r ensures forall x :: x in dying ==> x !in r[h].upstream {
      assert EdgesCut(t, r, u, d, h);
    }
  }

  ghost predicate EdgesCut(t: Table, r: Table, u: Handle, d: Handle, h: Handle)
    requires h in t && h in r
  {
    && (NoDuplicates(t[h].upstream) ==> NoDuplicates(r[h].upstream))
    && (NoDuplicates(t[h].downstream) ==> NoDuplicates(r[h].downstream))
    && (forall x :: x in r[h].upstream <==> x in t[h].upstream && !(h == d && x == u))
    && (forall x :: x in r[h].downstream <==> x in t[h].downstream && !(h == u && x == d))
  }

  lemma DetachedNothing(t: Table, x: Handle)
    ensures Detached(t, x, {}) == t
  {
  }

  lemma {:induction false} DetachedMore(t: Table, dying: set<Handle>, x: Handle, done: set<Handle>, d: Handle)
    requires Consistent(t, dying) && x in t && x !in dying && d in t[x].downstream && d !in done
    ensures d in t && NoDuplicates(Detached(t, x, done)[d].upstream)
    ensures var r := Detached(t, x, done);
            r[d := r[d].(upstream := Without(r[d].upstream, {x}))] == Detached(t, x, done + {d})
  {
    hide Without, NoDuplicates, UpstreamMirrored;
    assert DownstreamMirrored(t, x);
  }

  // ----- removal ends, because it cuts one edge after the other

  /** All edges that are listed upstream. */
  ghost function Edges(t: Table): set<(Handle, Handle)> {
    set h, u | h in t && u in t[h].upstream :: (h, u)
  }

  lemma FewerEdges(t: Table, r: Table)
    requires r.Keys <= t.Keys && forall h :: h in r ==> forall u :: u in r[h].upstream ==> u in t[h].upstream
    ensures Edges(r) <= Edges(t)
    ensures Edges(r) == Edges(t) || Edges(r) < Edges(t)
  {
  }

  lemma DetachedHasFewerEdges(t: Table, x: Handle, from: set<Handle>)
    ensures Edges(Detached(t, x, from)) <= Edges(t)
    ensures Edges(Detached(t, x, from)) == Edges(t) || Edges(Detached(t, x, from)) < Edges(t)
  {
    hide Without;
    FewerEdges(t, Detached(t, x, from));
  }

  lemma PartialHasFewerEdges(t: Table, dying: set<Handle>, x: Handle, cut: set<Handle>, gone: set<Handle>)
    ensures Edges(Partial(t, dying, x, cut, gone)) <= Edges(t)
  {
    hide Without;
    FewerEdges(t, Partial(t, dying, x, cut, gone));
  }

  lemma CutEdgeHasFewerEdges(t: Table, u: Handle, d: Handle)
    requires u in t && d in t && u in t[d].upstream
    ensures Edges(CutEdge(t, u, d)) < Edges(t)
  {
    hide Without;
    FewerEdges(t, CutEdge(t, u, d));
    assert (d, u) in Edges(t) && (d, u) !in Edges(CutEdge(t, u, d));
  }

  class Network {
    var table: Table

    /** Every call of an on_next callback so far. */
    ghost var log: seq<Delivery>

    constructor ()
      ensures table == map[] && log == []
    {
      table := map[];
      log := [];
    }

    // ----- single edges, one side at a time

    method AddUpstream(self: Handle, operator: Handle)
      requires self in table
      modifies this
      ensures table == old(table)[self := old(table)[self].(upstream := Appended(old(table)[self].upstream, operator))]
    {
      var current := table[self].upstream;
      if operator !in current {
        table := table[self := table[self].(upstream := current + [operator])];
      }
    }

    method AddDownstream(self: Handle, operator: Handle)
      requires self in table
      modifies this
      ensures var row := old(table)[self];
              table == old(table)[self := row.(downstream := Appended(row.downstream, operator))]
    {
      var current := table[self].downstream;
      if operator !in current {
        table := table[self := table[self].(downstream := current + [operator])];
      }
    }

    method RemoveUpstream(self: Handle, operator: Handle) returns (removed: bool)
      requires self in table && NoDuplicates(table[self].upstream)
      modifies this
      ensures removed <==> operator in old(table)[self].upstream
      ensures table == old(table)[self := old(table)[self].(upstream := Without(old(table)[self].upstream, {operator}))]
    {
      var current := table[self].upstream;
      if operator in current {
        RemoveFirstIsWithout(current, operator);
        table := table[self := table[self].(upstream := RemoveFirst(current, operator))];
        return true;
      }
      WithoutNothing(current, {operator});
      return false;
    }

    method RemoveDownstream(self: Handle, operator: Handle) returns (removed: bool)
      requires self in table && NoDuplicates(table[self].downstream)
      modifies this
      ensures removed <==> operator in old(table)[self].downstream
      ensures var row := old(table)[self];
              table == old(table)[self := row.(downstream := Without(row.downstream, {operator}))]
    {
      var current := table[self].downstream;
      if operator in current {
        RemoveFirstIsWithout(current, operator);
        table := table[self := table[self].(downstream := RemoveFirst(current, operator))];
        return true;
      }
      WithoutNothing(current, {operator});
      return false;
    }

    // ----- subscribing

    /**
     Adds an edge on both sides. The result is false where an assertion of the original fails: the
     value does not fit the subscriber, a completed operator is internal, or a second subscriber
     comes to an operator that is not multicast.
     */
    method Subscribe(self: Handle, downstream: Handle) returns (ok: bool)
      requires self in table && downstream in table
      requires Symmetric(table)
      modifies this
      ensures ok <==> Accepts(old(table), self, downstream)
      ensures ok && !old(table)[self].status.IsCompleted() ==> table == WithEdge(old(table), self, downstream)
      ensures !ok || old(table)[self].status.IsCompleted() ==> table == old(table)
      ensures Symmetric(table)
      ensures old(Fitting(table) && Unshared(table)) ==> Fitting(table) && Unshared(table)
    {
      hide Fitting, Unshared, Symmetric, WithEdge;
      ghost var t := table;
      var me := table[self];
      if !(table[downstream].inputSchema == EMPTY.schema || me.value.schema == table[downstream].inputSchema) {
        return false;
      }
      if me.status.IsCompleted() {
        return me.external;
      }
      if |me.downstream| != 0 && !me.multicast {
        return false;
      }
      WithEdgeIsSymmetric(table, self, downstream);
      if Fitting(t) && Unshared(t) {
        AcceptedEdgeFits(t, self, downstream);
      }
      WithEdgeIs(t, self, downstream);
      AddDownstream(self, downstream);
      AddUpstream(downstream, self);
      ok := true;
    }

    // ----- unsubscribing and removing

    /**
     Cuts an edge; an internal operator that loses its last subscriber is removed. Without the edge
     the result says whether the assertions of the original hold.
     */
    method Unsubscribe(self: Handle, downstream: Handle, ghost dying: set<Handle>)
      returns (ok: bool, ghost gone: set<Handle>)
      requires self in table && downstream in table && self !in dying
      requires Consistent(table, dying)
      modifies this
      ensures self !in old(table)[downstream].upstream ==>
                table == old(table) && gone == {}
                && ok == (old(table)[self].status.IsCompleted() && old(table)[self].downstream == [])
      ensures self in old(table)[downstream].upstream ==>
                ok && var cut := CutEdge(old(table), self, downstream);
                if cut[self].downstream == [] && !cut[self].external
                then CascadeWithin(cut, dying, self, gone) && LeastWithin(cut, dying, self, gone)
                     && table == PrunedWithin(cut, dying, gone)
                else gone == {} && table == cut
      decreases Edges(table), 0
    {
      hide Without, CascadeWithin, LeastWithin, PrunedWithin, Consistent, Edges;
      gone := {};
      if self !in table[downstream].upstream {
        ok := table[self].status.IsCompleted() && |table[self].downstream| == 0;
        return;
      }
      ghost var cut := CutEdge(table, self, downstream);
      CutEdgeIsConsistent(table, dying, self, downstream);
      CutEdgeHasFewerEdges(table, self, downstream);
      ListsAreSets(table, dying, downstream);
      ListsAreSets(table, dying, self);
      var r := RemoveUpstream(downstream, self);
      r := RemoveDownstream(self, downstream);
      assert table == cut;
      if |table[self].downstream| == 0 && !table[self].external {
        gone := Remove(self, dying);
      }
      ok := true;
    }

    lemma ListsAreSets(t: Table, dying: set<Handle>, h: Handle)
      requires Consistent(t, dying) && h in t
      ensures NoDuplicates(t[h].upstream) && NoDuplicates(t[h].downstream)
    {
    }

    /** Removes an operator together with everything that only it kept alive. */
    method Remove(self: Handle, ghost dying: set<Handle>) returns (ghost gone: set<Handle>)
      requires Consistent(table, dying) && self !in dying
      modifies this
      ensures self !in old(table) ==> table == old(table) && gone == {}
      ensures self in old(table) ==>
                && CascadeWithin(old(table), dying, self, gone) && LeastWithin(old(table), dying, self, gone)
                && table == PrunedWithin(old(table), dying, gone)
      ensures dying == {} && self in old(table) ==>
                LeastCascade(old(table), self, gone) && table == Pruned(old(table), gone) && Symmetric(table)
      ensures forall u :: u in old(table) && old(table)[u].external && u != self ==> u in table
      decreases Edges(table), 3
    {
      hide Without, Consistent, Edges, PartialCascade, Partial, Detached, CascadeWithin, LeastWithin, PrunedWithin,
           Cascade, LeastCascade, Pruned, Symmetric;
      if self !in table {
        return {};
      }
      ghost var before := table;
      ghost var from := set h | h in table[self].downstream;
      ghost var cut := set h | h in table[self].upstream && h != self;
      DetachedIsConsistent(table, dying, self, from);
      DetachedHasFewerEdges(table, self, from);
      DetachDownstream(self, dying, from);
      gone := UnsubscribeAll(self, dying + {self}, cut);
      RemovalIsCascade(before, dying, self, from, cut, gone);
      table := table - {self};
      gone := gone + {self};
      ExternalsStay(before, dying, self, gone);
      RemovedFromSymmetric(before, dying, self, gone);
    }

    /** What removal means when no other removal is under way. */
    lemma RemovedFromSymmetric(t: Table, dying: set<Handle>, x: Handle, gone: set<Handle>)
      requires x in t && Consistent(t, dying) && CascadeWithin(t, dying, x, gone) && LeastWithin(t, dying, x, gone)
      ensures dying == {} ==>
                && LeastCascade(t, x, gone) && PrunedWithin(t, dying, gone) == Pruned(t, gone)
                && Symmetric(Pruned(t, gone))
    {
      hide *;
      NothingIsDying(t, x, gone);
      if dying == {} {
        PrunedIsSymmetric(t, gone);
      }
    }

    /** External operators never disappear by cascade. */
    lemma ExternalsStay(t: Table, dying: set<Handle>, x: Handle, gone: set<Handle>)
      requires CascadeWithin(t, dying, x, gone)
      ensures forall u :: u in t && t[u].external && u != x ==> u in PrunedWithin(t, dying, gone)
    {
      hide Without;
    }

    /** The first loop: every subscriber forgets the operator. */
    method DetachDownstream(self: Handle, ghost dying: set<Handle>, ghost from: set<Handle>)
      requires self in table && Consistent(table, dying) && self !in dying
      requires forall h :: h in from <==> h in table[self].downstream
      modifies this
      ensures table == Detached(old(table), self, from)
    {
      hide Without, Consistent, Detached;
      var handles := table[self].downstream;
      ghost var done: set<Handle> := {};
      DetachedNothing(table, self);
      ListsAreSets(table, dying, self);
      for i := 0 to |handles|
        invariant done == set j | 0 <= j < i :: handles[j]
        invariant table == Detached(old(table), self, done) && table.Keys == old(table).Keys
      {
        DetachedMore(old(table), dying, self, done, handles[i]);
        var r := RemoveUpstream(handles[i], self);
        done := done + {handles[i]};
      }
      assert done == from;
    }

    /** The second loop: the operator unsubscribes from everything upstream of it. */
    method UnsubscribeAll(self: Handle, ghost dying: set<Handle>, ghost cut: set<Handle>)
      returns (ghost gone: set<Handle>)
      requires Dying(table, dying, self) && forall h :: h in cut <==> h in table[self].upstream
      modifies this
      ensures PartialCascade(old(table), dying, self, cut, gone)
      ensures table == Partial(old(table), dying, self, cut, gone)
      decreases Edges(table), 2
    {
      hide Without, PartialCascade, Partial, Consistent, Edges;
      var handles := table[self].upstream;
      ghost var t := table;
      ghost var done: set<Handle> := {};
      gone := {};
      PartialAtStart(t, dying, self);
      ListsAreSets(t, dying, self);
      for i := 0 to |handles|
        invariant done == set j | 0 <= j < i :: handles[j]
        invariant PartialCascade(t, dying, self, done, gone) && table == Partial(t, dying, self, done, gone)
      {
        PartialHasFewerEdges(t, dying, self, done, gone);
        gone := UnsubscribeNext(self, handles[i], dying, t, done, gone);
        done := done + {handles[i]};
      }
      assert done == cut;
    }

    method UnsubscribeNext(self: Handle, u: Handle, ghost dying: set<Handle>, ghost t: Table, ghost done: set<Handle>,
                           ghost gone: set<Handle>) returns (ghost more: set<Handle>)
      requires Dying(t, dying, self) && u in t[self].upstream && u !in done
      requires PartialCascade(t, dying, self, done, gone) && table == Partial(t, dying, self, done, gone)
      modifies this
      ensures PartialCascade(t, dying, self, done + {u}, more) && table == Partial(t, dying, self, done + {u}, more)
      decreases Edges(table), 1
    {
      hide Without, PartialCascade, Consistent, CascadeWithin, LeastWithin, Partial, PrunedWithin, CutEdge, Edges;
      UpstreamStands(t, dying, self, done, gone, u);
      PartialIsConsistent(t, dying, self, done, gone);
      PartialCut(t, dying, self, done, gone, u);
      ghost var p := Partial(t, dying, self, done + {u}, gone);
      UpstreamIsThere(t, dying, self, done + {u}, gone, u);
      var ok, fell := Unsubscribe(u, self, dying);
      if p[u].downstream == [] && !p[u].external {
        DyingStays(p, dying, u, fell, self);
        PartialWithFall(t, dying, self, done, gone, u, fell);
        PrunedPartial(t, dying, self, done + {u}, gone, fell);
        more := gone + fell;
      } else {
        PartialWithoutFall(t, dying, self, done, gone, u);
        more := gone;
      }
    }

    lemma UpstreamIsThere(t: Table, dying: set<Handle>, x: Handle, cut: set<Handle>, gone: set<Handle>, u: Handle)
      requires u in t && u !in gone
      ensures u in Partial(t, dying, x, cut, gone)
    {
    }

    lemma DyingStays(t: Table, dying: set<Handle>, u: Handle, gone: set<Handle>, x: Handle)
      requires CascadeWithin(t, dying, u, gone) && x in dying
      ensures x !in gone
    {
    }

    // ----- emitting

    /** Emits a value; the result is false when the emission runs into a cycle. */
    method Next(self: Handle, value: Value) returns (ok: bool)
      requires self in table && Closed(table)
      requires forall h :: h in table ==> !table[h].status.IsActive()
      modifies this
      ensures var r := Emit(old(table), [], self, value);
              && (ok <==> r.error.None?)
              && log == old(log) + r.log
              && table == if old(table)[self].status.IsCompleted() then old(table)
                          else Left(old(table), [], [Delivery([self], value)] + r.log, r)
      ensures ok && !old(table)[self].status.IsCompleted() ==>
                OnlyStores(old(table), [Delivery([self], value)] + log[|old(log)|..], table)
      ensures old(log) <= log && Ordered(old(table), log[|old(log)|..])
      ensures forall e :: e in log[|old(log)|..] ==>
                && Delivers(old(table), e.walk) && e.walk[0] == self
                && e.value == if Cleared(old(table), e.walk) then EMPTY else value
    {
      hide Emit, During, Stored, OnlyStores, Ordered, Delivers, Cleared;
      ghost var t := table;
      NothingEmitted(table);
      ok := EmitNext(self, value, table, [], []);
      assert [] + [self] == [self];
      ghost var own := [Delivery([self], value)];
      assert [] + own == own;
      assert log[|old(log)|..] == Emit(t, [], self, value).log;
      LogHoldsValues(t, self, value);
      DeliversDepthFirst(t, self, value);
      EmissionOnlyStores(t, own + Emit(t, [], self, value).log);
    }

    /** _emit for the NEXT callback, in a table where the operators in the stack are emitting. */
    method EmitNext(self: Handle, value: Value, ghost t: Table, ghost stack: seq<Handle>, ghost entries: seq<Delivery>)
      returns (ok: bool)
      requires self in t && Closed(t) && Quiescent(t, stack)
      requires stack != [] ==> !t[self].kind.Printer?
      requires table == During(t, stack, entries)
      modifies this
      ensures var r := Emit(t, stack, self, value);
              && (ok <==> r.error.None?)
              && log == old(log) + r.log
              && table == if t[self].status.IsCompleted() then old(table)
                          else Left(t, stack, entries + [Delivery(stack + [self], value)] + r.log, r)
      decreases |t.Keys - Elements(stack)|, 2, 0
    {
      hide Emit, DeliverAll, During, Left, Stored, Elements, Closed;
      EmitIs(t, stack, self, value);
      DuringAt(t, stack, entries, self);
      var status := table[self].status;
      if status.IsCompleted() {
        return true;
      }
      ghost var own := Delivery(stack + [self], value);
      if status.IsActive() {
        LeftAtCycle(t, stack, entries, self, own);
        return false;
      }
      StartsEmitting(t, stack, entries, self, value);
      Shrinks(t, stack, self);
      StartEmitting(self, value);
      DuringAt(t, stack + [self], entries + [own], self);
      ClosedDownstream(t, self);
      ok := RunAll(table[self].downstream, value, t, stack + [self], entries + [own]);
      ghost var r := Emit(t, stack, self, value);
      LeftIs(t, stack + [self], stack, entries + [own] + r.log, r);
      if ok {
        DuringAt(t, stack + [self], entries + [own] + r.log, self);
        StopsEmitting(t, stack, entries + [own] + r.log, self);
        LeftIs(t, stack, stack, entries + [own] + r.log, r);
        table := table[self := table[self].(status := EmitterStatus.Idle)];
      }
    }

    /** The operator is marked, and its value is the emitted one if it has the same schema. */
    method StartEmitting(self: Handle, value: Value)
      requires self in table
      modifies `table
      ensures var row := old(table)[self];
              table == old(table)[self := row.(status := EmitterStatus.Emitting,
                                               value := if value.schema == row.value.schema then value else row.value)]
    {
      table := table[self := table[self].(status := EmitterStatus.Emitting)];
      if value.schema == table[self].value.schema {
        table := table[self := table[self].(value := value)];
      }
    }

    /** The loop over the subscribers. */
    method RunAll(elements: seq<Handle>, value: Value, ghost t: Table, ghost stack: seq<Handle>,
                  ghost entries: seq<Delivery>)
      returns (ok: bool)
      requires stack != [] && Closed(t) && Quiescent(t, stack)
      requires forall d :: d in elements ==> d in t
      requires table == During(t, stack, entries)
      modifies this
      ensures var r := DeliverAll(t, stack, elements, value);
              && (ok <==> r.error.None?)
              && log == old(log) + r.log
              && table == Left(t, stack, entries + r.log, r)
      decreases |t.Keys - Elements(stack)|, 4, |elements|
    {
      hide DeliverAll, Deliver, During, Left, Elements, Closed;
      ghost var made: seq<Delivery> := [];
      assert entries + [] == entries && elements[0..] == elements;
      DeliverAllIs(t, stack, elements, value);
      for i := 0 to |elements|
        invariant log == old(log) + made
        invariant table == During(t, stack, entries + made)
        invariant forall d :: d in elements[i..] ==> d in t
        invariant var rest := DeliverAll(t, stack, elements[i..], value);
                  DeliverAll(t, stack, elements, value) == Result(made + rest.log, rest.error)
      {
        ghost var first := Deliver(t, stack, elements[i], value);
        assert elements[i..][0] == elements[i] && elements[i..][1..] == elements[i + 1..];
        DeliverAllIs(t, stack, elements[i..], value);
        ok := Run(elements[i], value, t, stack, entries + made);
        assert entries + made + first.log == entries + (made + first.log);
        assert old(log) + made + first.log == old(log) + (made + first.log);
        LeftIs(t, stack, stack, entries + made + first.log, first);
        made := made + first.log;
        if !ok {
          SameErrorLeft(t, stack, entries + made, first, DeliverAll(t, stack, elements, value));
          return;
        }
      }
      DeliverAllIs(t, stack, [], value);
      assert elements[|elements|..] == [] && made + [] == made;
      LeftIs(t, stack, stack, entries + made, Result(made, None));
      ok := true;
    }

    /** _run for the NEXT callback, and the callbacks of relays, properties and printers. */
    method Run(self: Handle, value: Value, ghost t: Table, ghost stack: seq<Handle>, ghost entries: seq<Delivery>)
      returns (ok: bool)
      requires self in t && stack != [] && Closed(t) && Quiescent(t, stack)
      requires table == During(t, stack, entries)
      modifies this
      ensures var r := Deliver(t, stack, self, value);
              && (ok <==> r.error.None?)
              && log == old(log) + r.log
              && table == Left(t, stack, entries + r.log, r)
      decreases |t.Keys - Elements(stack)|, 3, 0
    {
      hide Emit, During, Left, Stored, Elements, Closed;
      DuringAt(t, stack, entries, self);
      var status := table[self].status;
      if status.IsCompleted() {
        assert entries + [] == entries;
        LeftIs(t, stack, stack, entries + [], Result([], None));
        return true;
      }
      var received := if table[self].inputSchema == EMPTY.schema then EMPTY else value;
      ghost var own := Delivery(stack + [self], received);
      log := log + [own];
      if table[self].kind.Printer? {
        PrinterStoresNothing(t, stack, entries, self, received);
        LeftIs(t, stack, stack, entries + [own], Result([own], None));
        return true;
      }
      ghost var r := Emit(t, stack, self, received);
      ok := EmitNext(self, received, t, stack, entries);
      assert old(log) + [own] + r.log == old(log) + ([own] + r.log);
      assert entries + [own] + r.log == entries + ([own] + r.log);
      LeftIs(t, stack, stack, entries + ([own] + r.log), r);
      SameErrorLeft(t, stack, entries + ([own] + r.log), r, Deliver(t, stack, self, value));
    }
  }
}
