/**
 The states an operator removal goes through: first the edges to its subscribers are cut on their
 side, then its own upstream edges one by one, each of which may remove another operator. Operators
 that are being removed are called dying: nobody lists them upstream any more, and their own list of
 subscribers is not kept up to date.
 */
module Removal {
  import opened OperatorTable

  // ----- networks with dying operators

  /** Edges are listed on both sides, except that dying operators still list their subscribers. */
  ghost predicate Consistent(t: Table, dying: set<Handle>) {
    && ListsOk(t) && UpstreamMirrored(t)
    && (forall h :: h in t && h !in dying ==> DownstreamMirrored(t, h))
    && (forall h :: h in t ==> forall d :: d in dying ==> d !in t[h].upstream)
  }

  /** The closed sets, as far as operators are concerned that are not dying already. */
  ghost predicate ClosedWithin(t: Table, dying: set<Handle>, gone: set<Handle>) {
    forall u :: u in t && u !in dying && Falls(t, u, gone) ==> u in gone
  }

  ghost predicate CascadeWithin(t: Table, dying: set<Handle>, x: Handle, gone: set<Handle>) {
    && gone <= t.Keys && x in gone && gone !! dying
    && (forall u :: u in gone && u != x ==> Falls(t, u, gone))
    && ClosedWithin(t, dying, gone)
  }

  ghost predicate LeastWithin(t: Table, dying: set<Handle>, x: Handle, gone: set<Handle>) {
    forall closed: set<Handle> :: x in closed && ClosedWithin(t, dying, closed) ==> gone <= closed
  }

  /** The table without a set of operators and without the edges to them that are kept up to date. */
  ghost function PrunedWithin(t: Table, dying: set<Handle>, gone: set<Handle>): Table {
    map h | h in t && h !in gone :: PrunedRowWithin(t[h], h in dying, gone)
  }

  ghost function PrunedRowWithin(r: Row, dying: bool, gone: set<Handle>): Row {
    r.(upstream := Without(r.upstream, gone), downstream := if dying then r.downstream else Without(r.downstream, gone))
  }

  lemma NothingIsDying(t: Table, x: Handle, gone: set<Handle>)
    ensures Symmetric(t) <==> Consistent(t, {})
    ensures CascadeWithin(t, {}, x, gone) && LeastWithin(t, {}, x, gone) ==> LeastCascade(t, x, gone)
    ensures PrunedWithin(t, {}, gone) == Pruned(t, gone)
  {
    hide Without, Falls, ListsOk, UpstreamMirrored, DownstreamMirrored;
    if CascadeWithin(t, {}, x, gone) && LeastWithin(t, {}, x, gone) {
      forall closed: set<Handle> | x in closed && ClosedUnderFalls(t, closed) ensures gone <= closed {
        assert ClosedWithin(t, {}, closed);
      }
    }
  }

  // ----- the first loop

  /** x is gone from the upstream lists of some of its subscribers. */
  ghost function Detached(t: Table, x: Handle, from: set<Handle>): Table {
    map h | h in t :: if h in from then t[h].(upstream := Without(t[h].upstream, {x})) else t[h]
  }

  lemma {:induction false} DetachedIsConsistent(t: Table, dying: set<Handle>, x: Handle, from: set<Handle>)
    requires Consistent(t, dying) && x in t && x !in dying && forall h :: h in from <==> h in t[x].downstream
    ensures Consistent(Detached(t, x, from), dying + {x}) && Detached(t, x, from).Keys == t.Keys
    ensures forall h :: h in t ==> Detached(t, x, from)[h] == t[h].(upstream := Without(t[h].upstream, {x}))
  {
    hide Without, NoDuplicates;
    var r := Detached(t, x, from);
    forall h | h in t
      ensures r[h] == t[h].(upstream := Without(t[h].upstream, {x}))
      ensures NoDuplicates(r[h].upstream)
    {
      WithoutKeepsNoDuplicates(t[h].upstream, {x});
      if h !in from {
        WithoutNothing(t[h].upstream, {x});
      }
    }
    forall h | h in t && h !in dying + {x} ensures DownstreamMirrored(r, h) {
      assert DownstreamMirrored(t, h);
    }
  }

  // ----- the second loop

  /** The handles whose edges to row h are gone, on its upstream and its downstream side. */
  ghost function CutUp(x: Handle, cut: set<Handle>, gone: set<Handle>, h: Handle): set<Handle> {
    if h == x then gone + cut else gone
  }

  ghost function CutDown(x: Handle, dying: set<Handle>, cut: set<Handle>, gone: set<Handle>, h: Handle): set<Handle> {
    if h in dying then {} else if h in cut then gone + {x} else gone
  }

  /** The table when the edges from cut to x are cut and the operators in gone have been removed. */
  ghost function Partial(t: Table, dying: set<Handle>, x: Handle, cut: set<Handle>, gone: set<Handle>): Table {
    map h | h in t && h !in gone :: PartialRow(t, dying, x, cut, gone, h)
  }

  ghost function PartialRow(t: Table, dying: set<Handle>, x: Handle, cut: set<Handle>, gone: set<Handle>,
                            h: Handle): Row
    requires h in t
  {
    t[h].(upstream := Without(t[h].upstream, CutUp(x, cut, gone, h)),
          downstream := Without(t[h].downstream, CutDown(x, dying, cut, gone, h)))
  }

  /** u has lost all of its subscribers. */
  ghost predicate FallsPartly(t: Table, x: Handle, cut: set<Handle>, gone: set<Handle>, u: Handle)
    requires u in t
  {
    !t[u].external && t[u].downstream != []
    && forall d :: d in t[u].downstream ==> d in gone || (d == x && u in cut)
  }

  ghost predicate PartialCascade(t: Table, dying: set<Handle>, x: Handle, cut: set<Handle>, gone: set<Handle>) {
    && gone <= t.Keys && gone !! dying
    && (forall u :: u in gone ==> FallsPartly(t, x, cut, gone, u))
    && (forall u :: u in t && u !in gone && u !in dying ==> !FallsPartly(t, x, cut, gone, u))
    && LeastWithin(t, dying, x, gone)
  }

  /** One edge removed on both sides. */
  ghost function CutEdge(t: Table, u: Handle, d: Handle): Table
    requires u in t && d in t
  {
    var t1 := t[d := t[d].(upstream := Without(t[d].upstream, {u}))];
    t1[u := t1[u].(downstream := Without(t1[u].downstream, {d}))]
  }

  /** x is being removed. */
  ghost predicate Dying(t: Table, dying: set<Handle>, x: Handle) {
    Consistent(t, dying) && x in t && x in dying
  }

  /** Before any upstream edge is cut nothing has changed. */
  lemma {:induction false} PartialAtStart(t: Table, dying: set<Handle>, x: Handle)
    ensures Partial(t, dying, x, {}, {}) == t && PartialCascade(t, dying, x, {}, {})
  {
    hide Without, FallsPartly;
    forall h | h in t ensures PartialRow(t, dying, x, {}, {}, h) == t[h] {
      assert CutUp(x, {}, {}, h) == {} && CutDown(x, dying, {}, {}, h) == {};
      WithoutNothing(t[h].upstream, {});
      WithoutNothing(t[h].downstream, {});
    }
    forall u | u in t ensures !FallsPartly(t, x, {}, {}, u) {
      NothingFallsAtStart(t, x, u);
    }
  }

  lemma NothingFallsAtStart(t: Table, x: Handle, u: Handle)
    requires u in t
    ensures !FallsPartly(t, x, {}, {}, u)
  {
    if t[u].downstream != [] {
      assert t[u].downstream[0] in t[u].downstream;
    }
  }

  /** The next operator upstream has not fallen yet, because x still subscribes to it. */
  lemma {:induction false} UpstreamStands(t: Table, dying: set<Handle>, x: Handle, cut: set<Handle>,
                                          gone: set<Handle>, u: Handle)
    requires Dying(t, dying, x) && PartialCascade(t, dying, x, cut, gone) && u in t[x].upstream && u !in cut
    ensures u in t && u !in gone && u !in dying && u != x && x !in gone && x in t[u].downstream
    ensures var p := Partial(t, dying, x, cut, gone); u in p && x in p && u in p[x].upstream
  {
    hide Without, LeastWithin;
    assert u in gone ==> FallsPartly(t, x, cut, gone, u);
    assert x in t[u].downstream;
  }

  /** Cutting one more edge is one more step of the second loop. */
  lemma {:induction false} PartialCut(t: Table, dying: set<Handle>, x: Handle, cut: set<Handle>, gone: set<Handle>,
                                      u: Handle)
    requires x in t && x !in gone && u in t && u !in gone && u !in cut && u !in dying && x in dying
    ensures CutEdge(Partial(t, dying, x, cut, gone), u, x) == Partial(t, dying, x, cut + {u}, gone)
  {
    hide Without, PartialRow;
    var p := Partial(t, dying, x, cut, gone);
    var r := Partial(t, dying, x, cut + {u}, gone);
    RowCut(t, dying, x, cut, gone, u);
    assert p.Keys == r.Keys;
    forall h | h in p && h != x && h != u ensures p[h] == r[h] {
      RowKept(t, dying, x, cut, gone, u, h);
    }
    UpdatedTwice(p, r, x, u);
  }

  lemma UpdatedTwice(p: Table, r: Table, x: Handle, u: Handle)
    requires p.Keys == r.Keys && x in p && u in p && x != u
    requires forall h :: h in p && h != x && h != u ==> p[h] == r[h]
    ensures p[x := r[x]][u := r[u]] == r
  {
  }

  lemma {:induction false} RowCut(t: Table, dying: set<Handle>, x: Handle, cut: set<Handle>, gone: set<Handle>,
                                  u: Handle)
    requires x in t && u in t && u !in cut && u !in dying && x in dying
    ensures var r := PartialRow(t, dying, x, cut, gone, x);
            PartialRow(t, dying, x, cut + {u}, gone, x) == r.(upstream := Without(r.upstream, {u}))
    ensures var r := PartialRow(t, dying, x, cut, gone, u);
            PartialRow(t, dying, x, cut + {u}, gone, u) == r.(downstream := Without(r.downstream, {x}))
  {
    hide Without;
    WithoutTwice(t[x].upstream, gone + cut, {u});
    assert gone + cut + {u} == gone + (cut + {u});
    WithoutTwice(t[u].downstream, gone, {x});
  }

  lemma RowKept(t: Table, dying: set<Handle>, x: Handle, cut: set<Handle>, gone: set<Handle>, u: Handle, h: Handle)
    requires h in t && h != x && h != u
    ensures PartialRow(t, dying, x, cut + {u}, gone, h) == PartialRow(t, dying, x, cut, gone, h)
  {
    hide Without;
  }

  /** In between, edges are as consistent as before. */
  lemma {:induction false} PartialIsConsistent(t: Table, dying: set<Handle>, x: Handle, cut: set<Handle>,
                                               gone: set<Handle>)
    requires Dying(t, dying, x)
    ensures Consistent(Partial(t, dying, x, cut, gone), dying)
  {
    hide Without, NoDuplicates, ListsOk, PartialRow, DownstreamMirrored;
    var p := Partial(t, dying, x, cut, gone);
    PartialLists(t, dying, x, cut, gone);
    forall h, v | h in p && v in p[h].upstream ensures v in p && h in p[v].downstream {
      UpstreamInPartial(t, dying, x, cut, gone, h, v);
    }
    forall h | h in p && h !in dying ensures DownstreamMirrored(p, h) {
      MirroredInPartial(t, dying, x, cut, gone, h);
    }
    forall h | h in p ensures forall d :: d in dying ==> d !in p[h].upstream {
      DyingInPartial(t, dying, x, cut, gone, h);
    }
  }

  lemma UpstreamInPartial(t: Table, dying: set<Handle>, x: Handle, cut: set<Handle>, gone: set<Handle>, h: Handle,
                          v: Handle)
    requires UpstreamMirrored(t) && h in t && h !in gone && (forall d :: d in dying ==> d !in t[h].upstream)
    requires v in PartialRow(t, dying, x, cut, gone, h).upstream
    ensures v in t && v !in gone && h in PartialRow(t, dying, x, cut, gone, v).downstream
  {
    hide Without;
    assert v in t[h].upstream;
  }

  lemma DyingInPartial(t: Table, dying: set<Handle>, x: Handle, cut: set<Handle>, gone: set<Handle>, h: Handle)
    requires h in t && forall d :: d in dying ==> d !in t[h].upstream
    ensures forall d :: d in dying ==> d !in PartialRow(t, dying, x, cut, gone, h).upstream
  {
    hide Without;
  }

  lemma {:induction false} PartialLists(t: Table, dying: set<Handle>, x: Handle, cut: set<Handle>, gone: set<Handle>)
    requires ListsOk(t)
    ensures ListsOk(Partial(t, dying, x, cut, gone))
  {
    hide Without, NoDuplicates;
    var p := Partial(t, dying, x, cut, gone);
    forall h | h in p ensures NoDuplicates(p[h].upstream) && NoDuplicates(p[h].downstream) {
      WithoutKeepsNoDuplicates(t[h].upstream, CutUp(x, cut, gone, h));
      WithoutKeepsNoDuplicates(t[h].downstream, CutDown(x, dying, cut, gone, h));
    }
  }

  lemma MirroredInPartial(t: Table, dying: set<Handle>, x: Handle, cut: set<Handle>, gone: set<Handle>, h: Handle)
    requires h in t && h !in gone && h !in dying && DownstreamMirrored(t, h)
    ensures DownstreamMirrored(Partial(t, dying, x, cut, gone), h)
  {
    hide Without;
  }

  // ----- whether the last cut lets an operator fall

  /** Falling depends on the subscribers only. */
  lemma {:induction false} SameFall(t: Table, x: Handle, cut: set<Handle>, cut2: set<Handle>, gone: set<Handle>,
                                    gone2: set<Handle>, v: Handle)
    requires v in t && cut <= cut2 && gone <= gone2
    ensures FallsPartly(t, x, cut, gone, v) ==> FallsPartly(t, x, cut2, gone2, v)
    ensures gone == gone2 && (v in cut2 ==> v in cut)
            ==> (FallsPartly(t, x, cut, gone, v) <==> FallsPartly(t, x, cut2, gone2, v))
  {
  }

  /** If it does not, nothing more falls. */
  lemma {:induction false} PartialWithoutFall(t: Table, dying: set<Handle>, x: Handle, cut: set<Handle>,
                                              gone: set<Handle>, u: Handle)
    requires PartialCascade(t, dying, x, cut, gone) && u in t && u !in gone && u !in dying
    requires var p := Partial(t, dying, x, cut + {u}, gone); p[u].external || p[u].downstream != []
    ensures PartialCascade(t, dying, x, cut + {u}, gone)
  {
    hide Without, LeastWithin, FallsPartly;
    forall v | v in t && v !in gone && v !in dying ensures !FallsPartly(t, x, cut + {u}, gone, v) {
      if v == u {
        StillStands(t, dying, x, cut + {u}, gone, u);
      } else {
        SameFall(t, x, cut, cut + {u}, gone, gone, v);
      }
    }
    forall v | v in gone ensures FallsPartly(t, x, cut + {u}, gone, v) {
      SameFall(t, x, cut, cut + {u}, gone, gone, v);
    }
  }

  lemma StillStands(t: Table, dying: set<Handle>, x: Handle, cut: set<Handle>, gone: set<Handle>, u: Handle)
    requires u in t && u !in gone && u !in dying && u in cut
    requires var p := Partial(t, dying, x, cut, gone); p[u].external || p[u].downstream != []
    ensures !FallsPartly(t, x, cut, gone, u)
  {
    hide Without;
    var p := Partial(t, dying, x, cut, gone);
    if p[u].downstream != [] {
      assert p[u].downstream[0] in p[u].downstream;
    }
  }

  /** If it does, the operators that fall with u are gone as well. */
  lemma {:induction false} PartialWithFall(t: Table, dying: set<Handle>, x: Handle, cut: set<Handle>, gone: set<Handle>,
                                           u: Handle, more: set<Handle>)
    requires PartialCascade(t, dying, x, cut, gone) && u in t && u !in gone && u !in dying && x in t[u].downstream
    requires x in dying
    requires var p := Partial(t, dying, x, cut + {u}, gone);
             && !p[u].external && p[u].downstream == []
             && CascadeWithin(p, dying, u, more) && LeastWithin(p, dying, u, more)
    ensures PartialCascade(t, dying, x, cut + {u}, gone + more)
  {
    hide Without, LeastWithin, FallsPartly;
    var p := Partial(t, dying, x, cut + {u}, gone);
    forall v | v in gone ensures FallsPartly(t, x, cut + {u}, gone + more, v) {
      SameFall(t, x, cut, cut + {u}, gone, gone + more, v);
    }
    forall v | v in more ensures FallsPartly(t, x, cut + {u}, gone + more, v) {
      FallsFromPartial(t, dying, x, cut + {u}, gone, u, more, v);
    }
    forall v | v in t && v !in gone + more && v !in dying ensures !FallsPartly(t, x, cut + {u}, gone + more, v) {
      StandsFromPartial(t, dying, x, cut, gone, u, more, v);
    }
    LeastFromPartial(t, dying, x, cut, gone, u, more);
  }

  lemma {:induction false} FallsFromPartial(t: Table, dying: set<Handle>, x: Handle, cut: set<Handle>,
                                            gone: set<Handle>, u: Handle, more: set<Handle>, v: Handle)
    requires v in t && v !in gone && v in more
    requires u in t && u !in gone && u !in dying && x in t[u].downstream && u in cut
    requires var p := Partial(t, dying, x, cut, gone);
             p[u].downstream == [] && !p[u].external && CascadeWithin(p, dying, u, more)
    ensures FallsPartly(t, x, cut, gone + more, v)
  {
    hide Without;
    var p := Partial(t, dying, x, cut, gone);
    if v == u {
      forall d | d in t[u].downstream ensures d in gone || d == x {
        assert d !in p[u].downstream;
      }
    } else {
      assert Falls(p, v, more) && v !in dying;
      assert p[v].downstream[0] in p[v].downstream;
      forall d | d in t[v].downstream ensures d in gone + more || (d == x && v in cut) {
        assert d in p[v].downstream || d in CutDown(x, dying, cut, gone, v);
      }
    }
  }

  lemma {:induction false} StandsFromPartial(t: Table, dying: set<Handle>, x: Handle, cut: set<Handle>,
                                             gone: set<Handle>, u: Handle, more: set<Handle>, v: Handle)
    requires PartialCascade(t, dying, x, cut, gone)
    requires v in t && v !in gone && v !in more && v !in dying && u in t && u !in gone
    requires CascadeWithin(Partial(t, dying, x, cut + {u}, gone), dying, u, more)
    ensures !FallsPartly(t, x, cut + {u}, gone + more, v)
  {
    hide Without, LeastWithin;
    var p := Partial(t, dying, x, cut + {u}, gone);
    if p[v].downstream == [] {
      EmptyIsAllCut(t, dying, x, cut + {u}, gone, v);
      assert !FallsPartly(t, x, cut, gone, v);
    } else if !t[v].external {
      assert !Falls(p, v, more);
      var d :| d in p[v].downstream && d !in more;
      assert d in t[v].downstream;
    }
  }

  lemma EmptyIsAllCut(t: Table, dying: set<Handle>, x: Handle, cut: set<Handle>, gone: set<Handle>, v: Handle)
    requires v in t && v !in gone && v !in dying && Partial(t, dying, x, cut, gone)[v].downstream == []
    ensures forall d :: d in t[v].downstream ==> d in gone || (d == x && v in cut)
  {
    hide Without;
    forall d | d in t[v].downstream ensures d in gone || (d == x && v in cut) {
      assert d !in Partial(t, dying, x, cut, gone)[v].downstream;
    }
  }

  /** Every closed set with x has what has fallen so far, so it has u, and what falls with u. */
  lemma {:induction false} LeastFromPartial(t: Table, dying: set<Handle>, x: Handle, cut: set<Handle>,
                                            gone: set<Handle>, u: Handle, more: set<Handle>)
    requires LeastWithin(t, dying, x, gone) && u in t && u !in gone && u !in dying && x in t[u].downstream
    requires var p := Partial(t, dying, x, cut + {u}, gone);
             !p[u].external && p[u].downstream == [] && LeastWithin(p, dying, u, more)
    ensures LeastWithin(t, dying, x, gone + more)
  {
    hide Without, Falls;
    var p := Partial(t, dying, x, cut + {u}, gone);
    forall closed: set<Handle> | x in closed && ClosedWithin(t, dying, closed) ensures gone + more <= closed {
      assert gone <= closed;
      FirstFalls(t, dying, x, cut, gone, u, closed);
      forall v | v in p && v !in dying && Falls(p, v, closed) ensures v in closed {
        FallsBefore(t, dying, x, cut + {u}, gone, v, closed);
      }
      assert more <= closed;
    }
  }

  lemma FirstFalls(t: Table, dying: set<Handle>, x: Handle, cut: set<Handle>, gone: set<Handle>, u: Handle,
                   closed: set<Handle>)
    requires u in t && u !in gone && u !in dying && x in t[u].downstream && gone <= closed && x in closed
    requires var p := Partial(t, dying, x, cut + {u}, gone); !p[u].external && p[u].downstream == []
    ensures Falls(t, u, closed)
  {
    hide Without;
    var p := Partial(t, dying, x, cut + {u}, gone);
    forall d | d in t[u].downstream ensures d in closed {
      assert d !in p[u].downstream;
    }
  }

  lemma FallsBefore(t: Table, dying: set<Handle>, x: Handle, cut: set<Handle>, gone: set<Handle>, v: Handle,
                    closed: set<Handle>)
    requires v in t && v !in gone && v !in dying && gone <= closed && x in closed
    requires Falls(Partial(t, dying, x, cut, gone), v, closed)
    ensures Falls(t, v, closed)
  {
    hide Without;
    var p := Partial(t, dying, x, cut, gone);
    assert p[v].downstream[0] in p[v].downstream;
    forall d | d in t[v].downstream ensures d in closed {
      assert d in p[v].downstream || d in CutDown(x, dying, cut, gone, v);
    }
  }

  /** Pruning what has been cut so far is cutting what is pruned. */
  lemma {:induction false} PrunedPartial(t: Table, dying: set<Handle>, x: Handle, cut: set<Handle>, gone: set<Handle>,
                                         more: set<Handle>)
    requires x !in more
    ensures PrunedWithin(Partial(t, dying, x, cut, gone), dying, more) == Partial(t, dying, x, cut, gone + more)
  {
    hide Without, PrunedRowWithin, PartialRow;
    var p, r := Partial(t, dying, x, cut, gone), Partial(t, dying, x, cut, gone + more);
    assert PrunedWithin(p, dying, more).Keys == r.Keys;
    forall h | h in r ensures PrunedRowWithin(p[h], h in dying, more) == r[h] {
      PrunedRowPartial(t, dying, x, cut, gone, more, h);
    }
  }

  lemma PrunedRowPartial(t: Table, dying: set<Handle>, x: Handle, cut: set<Handle>, gone: set<Handle>,
                         more: set<Handle>, h: Handle)
    requires h in t
    ensures PrunedRowWithin(PartialRow(t, dying, x, cut, gone, h), h in dying, more)
            == PartialRow(t, dying, x, cut, gone + more, h)
  {
    hide Without;
    WithoutTwice(t[h].upstream, CutUp(x, cut, gone, h), more);
    assert CutUp(x, cut, gone, h) + more == CutUp(x, cut, gone + more, h);
    if h !in dying {
      WithoutTwice(t[h].downstream, CutDown(x, dying, cut, gone, h), more);
      assert CutDown(x, dying, cut, gone, h) + more == CutDown(x, dying, cut, gone + more, h);
    }
  }

  // ----- when all edges are cut

  /** In the end, the operators that fell and x itself are the least cascade of x in the table before. */
  lemma {:induction false} RemovalIsCascade(t: Table, dying: set<Handle>, x: Handle, from: set<Handle>,
                                            cut: set<Handle>, gone: set<Handle>)
    requires Consistent(t, dying) && x in t && x !in dying && forall h :: h in from <==> h in t[x].downstream
    requires forall h :: h in cut <==> h in t[x].upstream && h != x
    requires PartialCascade(Detached(t, x, from), dying + {x}, x, cut, gone)
    ensures CascadeWithin(t, dying, x, gone + {x}) && LeastWithin(t, dying, x, gone + {x})
    ensures Partial(Detached(t, x, from), dying + {x}, x, cut, gone) - {x} == PrunedWithin(t, dying, gone + {x})
  {
    DetachedIsConsistent(t, dying, x, from);
    hide *;
    CascadeAtEnd(t, dying, x, from, cut, gone);
    LeastAtEnd(t, dying, x, from, gone, cut);
    TableAtEnd(t, dying, x, from, cut, gone);
  }

  lemma {:induction false} CascadeAtEnd(t: Table, dying: set<Handle>, x: Handle, from: set<Handle>, cut: set<Handle>,
                                        gone: set<Handle>)
    requires Consistent(t, dying) && x in t && x !in dying
    requires forall h :: h in cut <==> h in t[x].upstream && h != x
    requires PartialCascade(Detached(t, x, from), dying + {x}, x, cut, gone)
    ensures CascadeWithin(t, dying, x, gone + {x})
  {
    hide Without, FallsPartly, Falls, LeastWithin, ListsOk, UpstreamMirrored, DownstreamMirrored;
    var d := Detached(t, x, from);
    forall u | u in t && u != x && u !in dying ensures FallsPartly(d, x, cut, gone, u) <==> Falls(t, u, gone + {x}) {
      SameFallAtEnd(t, x, d, cut, gone, u);
    }
  }

  lemma {:induction false} LeastAtEnd(t: Table, dying: set<Handle>, x: Handle, from: set<Handle>, gone: set<Handle>,
                                      cut: set<Handle>)
    requires PartialCascade(Detached(t, x, from), dying + {x}, x, cut, gone)
    ensures LeastWithin(t, dying, x, gone + {x})
  {
    hide Without, FallsPartly;
    var d := Detached(t, x, from);
    forall closed: set<Handle> | x in closed && ClosedWithin(t, dying, closed) ensures gone + {x} <= closed {
      forall u | u in d && u !in dying + {x} && Falls(d, u, closed) ensures u in closed {
        assert Falls(t, u, closed);
      }
      assert ClosedWithin(d, dying + {x}, closed);
    }
  }

  lemma {:induction false} TableAtEnd(t: Table, dying: set<Handle>, x: Handle, from: set<Handle>, cut: set<Handle>,
                                      gone: set<Handle>)
    requires Consistent(t, dying) && x in t && x !in dying
    requires forall h :: h in cut <==> h in t[x].upstream && h != x
    requires forall h :: h in t ==> Detached(t, x, from)[h] == t[h].(upstream := Without(t[h].upstream, {x}))
    ensures Partial(Detached(t, x, from), dying + {x}, x, cut, gone) - {x} == PrunedWithin(t, dying, gone + {x})
  {
    hide Without, PartialRow, PrunedRowWithin, ListsOk, UpstreamMirrored, DownstreamMirrored;
    var d := Detached(t, x, from);
    var p, r := Partial(d, dying + {x}, x, cut, gone) - {x}, PrunedWithin(t, dying, gone + {x});
    assert p.Keys == r.Keys;
    forall h | h in r ensures p[h] == r[h] {
      RowAtEnd(t, dying, x, d, cut, gone, h);
    }
  }

  lemma {:induction false} RowAtEnd(t: Table, dying: set<Handle>, x: Handle, d: Table, cut: set<Handle>,
                                    gone: set<Handle>, h: Handle)
    requires x in t && h in t && h != x && h in d && (h !in dying ==> DownstreamMirrored(t, h))
    requires d[h] == t[h].(upstream := Without(t[h].upstream, {x}))
    requires forall h :: h in cut <==> h in t[x].upstream && h != x
    ensures PartialRow(d, dying + {x}, x, cut, gone, h) == PrunedRowWithin(t[h], h in dying, gone + {x})
  {
    hide Without;
    WithoutTwice(t[h].upstream, {x}, gone);
    assert {x} + gone == gone + {x};
    if h in dying {
      WithoutNothing(t[h].downstream, {});
    } else {
      WithoutSame(t[h].downstream, CutDown(x, dying + {x}, cut, gone, h), gone + {x});
    }
  }

  lemma {:induction false} SameFallAtEnd(t: Table, x: Handle, d: Table, cut: set<Handle>, gone: set<Handle>, u: Handle)
    requires x in t && u in t && u != x && u in d && DownstreamMirrored(t, u)
    requires d[u].downstream == t[u].downstream && d[u].external == t[u].external
    requires forall h :: h in cut <==> h in t[x].upstream && h != x
    ensures FallsPartly(d, x, cut, gone, u) <==> Falls(t, u, gone + {x})
  {
  }
}
