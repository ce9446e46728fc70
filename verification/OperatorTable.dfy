/**
 The operator table of the reactive prototype: rows with edges in both directions, what removing
 an operator does to it, and which other operators go with it.
 */
module OperatorTable {

  type Handle = nat

  /** The type of an operator, as far as it takes part in emissions. */
  datatype Kind = Relay | Property | Printer

  datatype EmitterStatus = Emitting | Failing | Completing | Idle | Failed | Completed {
    predicate IsActive() {
      Emitting? || Failing? || Completing?
    }

    predicate IsCompleted() {
      !(Idle? || Emitting?)
    }
  }

  /** A value and its schema; schema 0 is the schema of the empty value. */
  datatype Value = Value(schema: nat, content: int)

  const EMPTY := Value(0, 0)

  datatype Row = Row(
    kind: Kind,
    external: bool,
    multicast: bool,
    status: EmitterStatus,
    value: Value,
    inputSchema: nat,
    upstream: seq<Handle>,
    downstream: seq<Handle>
  )

  type Table = map<Handle, Row>

  // ----- lists of handles

  ghost predicate NoDuplicates(s: seq<Handle>) {
    forall i, j :: 0 <= i < j < |s| ==> s[i] != s[j]
  }

  /** The list without the handles in a set, in the same order. */
  ghost function Without(s: seq<Handle>, gone: set<Handle>): (r: seq<Handle>)
    ensures forall h :: h in r <==> h in s && h !in gone
  {
    if s == [] then []
    else (if s[0] in gone then [] else [s[0]]) + Without(s[1..], gone)
  }

  /** list.remove: drops the first occurrence. */
  function RemoveFirst(s: seq<Handle>, h: Handle): seq<Handle>
    requires h in s
  {
    if s[0] == h then s[1..] else [s[0]] + RemoveFirst(s[1..], h)
  }

  lemma {:induction false} WithoutNothing(s: seq<Handle>, gone: set<Handle>)
    requires forall h :: h in s ==> h !in gone
    ensures Without(s, gone) == s
  {
    if s != [] {
      WithoutNothing(s[1..], gone);
    }
  }

  lemma {:induction false} WithoutTwice(s: seq<Handle>, a: set<Handle>, b: set<Handle>)
    ensures Without(Without(s, a), b) == Without(s, a + b)
  {
    if s != [] {
      WithoutTwice(s[1..], a, b);
      var w := Without(s, a);
      if s[0] in a {
        assert w == Without(s[1..], a);
      } else {
        assert w[0] == s[0] && w[1..] == Without(s[1..], a);
      }
    }
  }

  /** Only the handles that occur in the list matter. */
  lemma {:induction false} WithoutSame(s: seq<Handle>, a: set<Handle>, b: set<Handle>)
    requires forall h :: h in s ==> (h in a <==> h in b)
    ensures Without(s, a) == Without(s, b)
  {
    if s != [] {
      WithoutSame(s[1..], a, b);
    }
  }

  lemma {:induction false} WithoutKeepsNoDuplicates(s: seq<Handle>, gone: set<Handle>)
    requires NoDuplicates(s)
    ensures NoDuplicates(Without(s, gone))
  {
    if s != [] {
      WithoutKeepsNoDuplicates(s[1..], gone);
    }
  }

  lemma {:induction false} RemoveFirstIsWithout(s: seq<Handle>, h: Handle)
    requires h in s && NoDuplicates(s)
    ensures RemoveFirst(s, h) == Without(s, {h})
  {
    if s[0] == h {
      WithoutNothing(s[1..], {h});
    } else {
      RemoveFirstIsWithout(s[1..], h);
    }
  }

  // ----- graph invariants

  ghost predicate ListsOk(t: Table) {
    forall h :: h in t ==> NoDuplicates(t[h].upstream) && NoDuplicates(t[h].downstream)
  }

  /** Whoever is listed as upstream is alive and lists the edge as well. */
  ghost predicate UpstreamMirrored(t: Table) {
    forall h, u :: h in t && u in t[h].upstream ==> u in t && h in t[u].downstream
  }

  /** Whoever h lists as downstream is alive and lists the edge as well. */
  ghost predicate DownstreamMirrored(t: Table, h: Handle)
    requires h in t
  {
    forall d :: d in t[h].downstream ==> d in t && h in t[d].upstream
  }

  /** b in a.downstream exactly when a in b.upstream, over live rows. */
  ghost predicate Symmetric(t: Table) {
    && ListsOk(t) && UpstreamMirrored(t)
    && forall h :: h in t ==> DownstreamMirrored(t, h)
  }

  /** The network has no cycle: ranks grow along every edge. */
  ghost predicate Ranked(t: Table, rank: map<Handle, nat>) {
    && t.Keys <= rank.Keys
    && forall h, d :: h in t && d in t[h].downstream ==> d in t && rank[h] < rank[d]
  }

  // ----- cascades

  /** An internal operator that has subscribers, all of which are in the set. */
  ghost predicate Falls(t: Table, u: Handle, gone: set<Handle>)
    requires u in t
  {
    !t[u].external && t[u].downstream != [] && forall d :: d in t[u].downstream ==> d in gone
  }

  /** Operator x and a set of others that fall with it, with none left standing that falls. */
  ghost predicate Cascade(t: Table, x: Handle, gone: set<Handle>) {
    && gone <= t.Keys && x in gone
    && (forall u :: u in gone && u != x ==> Falls(t, u, gone))
    && (forall u :: u in t && u !in gone ==> !Falls(t, u, gone))
  }

  /** The set is closed: it has every operator that falls with it. */
  ghost predicate ClosedUnderFalls(t: Table, gone: set<Handle>) {
    forall u :: u in t && Falls(t, u, gone) ==> u in gone
  }

  /** A cascade that is contained in every other closed set with x. */
  ghost predicate LeastCascade(t: Table, x: Handle, gone: set<Handle>) {
    && Cascade(t, x, gone)
    && forall closed: set<Handle> :: x in closed && ClosedUnderFalls(t, closed) ==> gone <= closed
  }

  /** On every network there is at most one. */
  lemma LeastCascadeIsUnique(t: Table, x: Handle, a: set<Handle>, b: set<Handle>)
    requires LeastCascade(t, x, a) && LeastCascade(t, x, b)
    ensures a == b
  {
    assert ClosedUnderFalls(t, a) && ClosedUnderFalls(t, b);
  }

  /** The table without a set of operators and without all edges to them. */
  ghost function Pruned(t: Table, gone: set<Handle>): Table {
    map h | h in t && h !in gone :: PrunedRow(t[h], gone)
  }

  ghost function PrunedRow(r: Row, gone: set<Handle>): Row {
    r.(upstream := Without(r.upstream, gone), downstream := Without(r.downstream, gone))
  }

  /** Without cycles, every cascade is the least one. */
  lemma {:induction false} CascadeIsLeast(t: Table, rank: map<Handle, nat>, x: Handle, gone: set<Handle>)
    requires Ranked(t, rank) && Cascade(t, x, gone)
    ensures LeastCascade(t, x, gone)
  {
    var bound := MaxRank(t, rank);
    forall closed: set<Handle> | x in closed && ClosedUnderFalls(t, closed) ensures gone <= closed {
      forall u | u in gone ensures u in closed {
        CascadeIsLeastAt(t, rank, bound, x, gone, closed, u);
      }
    }
  }

  lemma {:induction false} CascadeIsLeastAt(t: Table, rank: map<Handle, nat>, bound: nat, x: Handle, gone: set<Handle>,
                                            closed: set<Handle>, u: Handle)
    requires Ranked(t, rank) && Cascade(t, x, gone) && u in gone
    requires forall h :: h in t ==> rank[h] <= bound
    requires x in closed && ClosedUnderFalls(t, closed)
    ensures u in closed
    decreases bound - rank[u]
  {
    if u != x {
      forall d | d in t[u].downstream ensures d in closed {
        CascadeIsLeastAt(t, rank, bound, x, gone, closed, d);
      }
      assert Falls(t, u, closed);
    }
  }

  lemma {:induction false} MaxRank(t: Table, rank: map<Handle, nat>) returns (bound: nat)
    requires t.Keys <= rank.Keys
    ensures forall h :: h in t ==> rank[h] <= bound
    decreases |t|
  {
    if t.Keys == {} {
      bound := 0;
    } else {
      var h :| h in t;
      var rest := t - {h};
      assert rest.Keys == t.Keys - {h};
      bound := MaxRank(rest, rank);
      bound := if rank[h] > bound then rank[h] else bound;
    }
  }

  /** So there is only one. */
  lemma CascadeIsUnique(t: Table, rank: map<Handle, nat>, x: Handle, a: set<Handle>, b: set<Handle>)
    requires Ranked(t, rank) && Cascade(t, x, a) && Cascade(t, x, b)
    ensures a == b
  {
    CascadeIsLeast(t, rank, x, a);
    CascadeIsLeast(t, rank, x, b);
    LeastCascadeIsUnique(t, x, a, b);
  }

  /** Everything that disappears leads to x along downstream edges. */
  ghost predicate Leads(t: Table, path: seq<Handle>, x: Handle) {
    && path != [] && path[|path| - 1] == x
    && (forall i :: 0 <= i < |path| ==> path[i] in t)
    && (forall i :: 0 <= i < |path| - 1 ==> path[i + 1] in t[path[i]].downstream)
  }

  ghost predicate LeadsFrom(t: Table, u: Handle, x: Handle) {
    exists path :: Leads(t, path, x) && path[0] == u
  }

  lemma CascadeLeadsToX(t: Table, x: Handle, gone: set<Handle>, u: Handle) returns (path: seq<Handle>)
    requires x in t && LeastCascade(t, x, gone) && u in gone
    ensures Leads(t, path, x) && path[0] == u
  {
    var leading := set v | v in gone && LeadsFrom(t, v, x);
    assert Leads(t, [x], x) && [x][0] == x;
    forall v | v in t && Falls(t, v, leading) ensures v in leading {
      assert Falls(t, v, gone);
      var d := t[v].downstream[0];
      assert d in leading && LeadsFrom(t, d, x);
      var rest :| Leads(t, rest, x) && rest[0] == d;
      LeadsFurther(t, v, rest, x);
    }
    assert ClosedUnderFalls(t, leading) && u in leading;
    path :| Leads(t, path, x) && path[0] == u;
  }

  lemma LeadsFurther(t: Table, v: Handle, rest: seq<Handle>, x: Handle)
    requires Leads(t, rest, x) && v in t && rest[0] in t[v].downstream
    ensures LeadsFrom(t, v, x)
  {
    var path := [v] + rest;
    assert Leads(t, path, x) && path[0] == v;
  }

  /** Two internal operators that only subscribe to each other, and one besides. */
  ghost predicate Circle(t: Table) {
    && t.Keys == {0, 1, 2} && !t[0].external && !t[1].external && t[2].external
    && t[0].downstream == [1] == t[0].upstream && t[1].downstream == [0] == t[1].upstream
    && t[2].downstream == [] == t[2].upstream
  }

  /** With a cycle there can be other cascades than the least one: the two may stay or go. */
  lemma CyclesAllowTwoCascades(t: Table)
    requires Circle(t)
    ensures Symmetric(t) && Cascade(t, 2, {2}) && Cascade(t, 2, {0, 1, 2}) && LeastCascade(t, 2, {2})
  {
    hide Circle, Falls, Symmetric;
    CircleIsSymmetric(t);
    CircleFalls(t);
  }

  lemma CircleIsSymmetric(t: Table)
    requires Circle(t)
    ensures Symmetric(t)
  {
    forall h | h in t ensures NoDuplicates(t[h].upstream) && NoDuplicates(t[h].downstream) {
    }
  }

  lemma CircleFalls(t: Table)
    requires Circle(t)
    ensures forall h :: h in t ==> !Falls(t, h, {2}) && (h != 2 ==> Falls(t, h, {0, 1, 2})) && h in {0, 1, 2}
    ensures {2} <= t.Keys && {0, 1, 2} <= t.Keys
  {
    assert 1 in t[0].downstream && 0 in t[1].downstream;
  }

  /** Removing a cascade keeps the edges symmetric. */
  lemma PrunedIsSymmetric(t: Table, gone: set<Handle>)
    requires Symmetric(t)
    ensures Symmetric(Pruned(t, gone))
  {
    hide Without, NoDuplicates;
    var r := Pruned(t, gone);
    forall h | h in r ensures NoDuplicates(r[h].upstream) && NoDuplicates(r[h].downstream) {
      WithoutKeepsNoDuplicates(t[h].upstream, gone);
      WithoutKeepsNoDuplicates(t[h].downstream, gone);
    }
    forall h | h in r ensures DownstreamMirrored(r, h) {
      assert DownstreamMirrored(t, h);
    }
  }

  // ----- networks without cycles have ranks

  ghost predicate IsPath(t: Table, path: seq<Handle>, a: Handle, b: Handle) {
    && |path| > 1 && path[0] == a && path[|path| - 1] == b
    && (forall i :: 0 <= i < |path| ==> path[i] in t)
    && (forall i :: 0 <= i < |path| - 1 ==> path[i + 1] in t[path[i]].downstream)
  }

  /** Some path along one or more downstream edges. */
  ghost predicate Reaches(t: Table, a: Handle, b: Handle) {
    exists path :: IsPath(t, path, a, b)
  }

  ghost predicate Acyclic(t: Table) {
    forall h :: h in t ==> !Reaches(t, h, h)
  }

  ghost function Ancestors(t: Table, h: Handle): set<Handle> {
    set a | a in t && Reaches(t, a, h)
  }

  lemma AncestorsGrow(t: Table, h: Handle, d: Handle)
    requires Acyclic(t) && h in t && d in t && d in t[h].downstream
    ensures Ancestors(t, h) < Ancestors(t, d)
  {
    assert IsPath(t, [h, d], h, d);
    forall a | a in Ancestors(t, h) ensures a in Ancestors(t, d) {
      var path :| IsPath(t, path, a, h);
      assert IsPath(t, path + [d], a, d);
    }
    assert h in Ancestors(t, d) && h !in Ancestors(t, h);
  }

  lemma SmallerSet(a: set<Handle>, b: set<Handle>)
    requires a < b
    ensures |a| < |b|
  {
    var x :| x in b && x !in a;
    SubsetSize(a, b - {x});
  }

  lemma {:induction false} SubsetSize(a: set<Handle>, b: set<Handle>)
    requires a <= b
    ensures |a| <= |b|
  {
    if a != {} {
      var x :| x in a;
      SubsetSize(a - {x}, b - {x});
    }
  }

  /** Every symmetric network without a cycle has ranks: the number of its ancestors is one for each operator. */
  lemma AcyclicIsRanked(t: Table) returns (rank: map<Handle, nat>)
    requires Symmetric(t) && Acyclic(t)
    ensures Ranked(t, rank)
  {
    rank := map h | h in t :: |Ancestors(t, h)|;
    forall h, d | h in t && d in t[h].downstream ensures d in t && rank[h] < rank[d] {
      assert DownstreamMirrored(t, h);
      AncestorsGrow(t, h, d);
      SmallerSet(Ancestors(t, h), Ancestors(t, d));
    }
  }

  /** And a network with ranks has no cycle. */
  lemma RankedIsAcyclic(t: Table, rank: map<Handle, nat>)
    requires Ranked(t, rank)
    ensures Acyclic(t)
  {
    forall h | h in t ensures !Reaches(t, h, h) {
      if path :| IsPath(t, path, h, h) {
        RankGrowsAlong(t, rank, path, |path| - 1);
      }
    }
  }

  lemma {:induction false} RankGrowsAlong(t: Table, rank: map<Handle, nat>, path: seq<Handle>, n: nat)
    requires Ranked(t, rank) && n < |path|
    requires forall i :: 0 <= i < |path| ==> path[i] in t
    requires forall i :: 0 <= i < |path| - 1 ==> path[i + 1] in t[path[i]].downstream
    ensures rank[path[0]] + n <= rank[path[n]]
  {
    if n > 0 {
      RankGrowsAlong(t, rank, path, n - 1);
      assert path[n - 1 + 1] in t[path[n - 1]].downstream;
    }
  }
}
