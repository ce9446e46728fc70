/**
 Which single layouts share their schema with another one: those in which a body can move to another
 slot, because where it starts is also the id of an inline element that stands in a slot nearby.
 */
module SchemaTwins {
  import opened Schema
  import opened SchemaUniqueness

  predicate IsId(q: nat) {
    q == NUMBER || q == STRING
  }

  function InlineOf(q: nat): (c: Layout)
    requires IsId(q)
    ensures c.IsInline() && Id(c) == q
  {
    if q == NUMBER then Number else String
  }

  predicate AllInline(cs: seq<Layout>) {
    cs != [] ==> cs[0].IsInline() && AllInline(cs[1..])
  }

  // ----- where a body can be taken away

  /** The words of the layout end with a body that starts at q, and nothing but inline slots comes after its slot. */
  predicate EndsWith(l: Layout, at: nat, q: nat)
    decreases l, 0
  {
    match l
    case List(e) => EndsWith(e, at + 1, q)
    case Map(cs) => EndsWithIn(cs, at + 2 + |cs|, q)
    case _ => false
  }

  predicate EndsWithIn(cs: seq<Layout>, index: nat, q: nat)
    decreases cs, 2
  {
    cs != [] && ((AllInline(cs[1..]) && Ends(cs[0], index, q)) || EndsWithIn(cs[1..], index + BehindSize(cs[0]), q))
  }

  /** The child is such a body itself or ends with one. */
  predicate Ends(c: Layout, index: nat, q: nat)
    decreases c, 1
  {
    !c.IsInline() && (index == q || EndsWith(c, index, q))
  }

  // ----- where a body can be put

  /** Behind the last body of the layout there is a slot with the inline id q. */
  predicate HasRoom(l: Layout, q: nat)
    decreases l, 0
  {
    match l
    case List(e) => HasRoom(e, q)
    case Map(cs) => HasRoomIn(cs, q)
    case _ => false
  }

  predicate HasRoomIn(cs: seq<Layout>, q: nat)
    decreases cs, 2
  {
    cs != [] && ((AllInline(cs[1..]) && RoomFor(cs[0], q)) || HasRoomIn(cs[1..], q))
  }

  /** The child is such an inline element or has room in it. */
  predicate RoomFor(c: Layout, q: nat)
    decreases c, 1
  {
    if c.IsInline() then Id(c) == q else HasRoom(c, q)
  }

  // ----- layouts in which a body can move

  /** Before any further body there is a slot with the inline id q. */
  predicate IdAhead(cs: seq<Layout>, q: nat) {
    cs != [] && cs[0].IsInline() && (Id(cs[0]) == q || IdAhead(cs[1..], q))
  }

  /** Some body starts at an index that is an inline id, and its slot could trade places with one that holds this id. */
  predicate HasTwin(l: Layout, at: nat)
    decreases l, 0
  {
    match l
    case List(e) => HasTwin(e, at + 1)
    case Map(cs) => TwinIn(cs, at + 2 + |cs|)
    case _ => false
  }

  predicate TwinIn(cs: seq<Layout>, index: nat)
    decreases cs, 1
  {
    cs != [] &&
    (|| TwinIn(cs[1..], index + BehindSize(cs[0]))
     || HasTwin(cs[0], index)
     || MovesRight(cs, index, NUMBER) || MovesRight(cs, index, STRING)
     || MovesLeft(cs, index))
  }

  predicate MovesRight(cs: seq<Layout>, index: nat, q: nat)
    requires cs != []
  {
    Ends(cs[0], index, q) && IdAhead(cs[1..], q)
  }

  predicate MovesLeft(cs: seq<Layout>, index: nat)
    requires cs != []
  {
    var next := index + BehindSize(cs[0]);
    IsId(next) && RoomFor(cs[0], next) && !AllInline(cs[1..])
  }

  // ----- layouts of elements that can be constructed

  /** There is no map without children inside. */
  predicate Solid(l: Layout)
    decreases l, 0
  {
    match l
    case List(e) => Solid(e)
    case Map(cs) => cs != [] && AllSolid(cs)
    case _ => true
  }

  predicate AllSolid(cs: seq<Layout>)
    decreases cs, 1
  {
    cs != [] ==> Solid(cs[0]) && AllSolid(cs[1..])
  }

  // ----- the words of one child and those behind it

  lemma Cons(c: Layout, cs: seq<Layout>, index: nat)
    ensures var next := index + BehindSize(c);
            && Slots([c] + cs, index) == [Slot(c, index)] + Slots(cs, next)
            && Bodies([c] + cs, index) == Behind(c, index) + Bodies(cs, next)
            && BodySize([c] + cs) == BehindSize(c) + BodySize(cs)
            && (AllSolid([c] + cs) <==> Solid(c) && AllSolid(cs))
  {
    hide *;
    var all := [c] + cs;
    assert all[0] == c && all[1..] == cs;
    SlotsAre(all, index);
    BodiesAre(all, index);
    AllSolidIs(all);
  }

  lemma AllSolidIs(cs: seq<Layout>)
    ensures AllSolid(cs) <==> (cs != [] ==> Solid(cs[0]) && AllSolid(cs[1..]))
  {
  }

  lemma ListWords(e: Layout, at: nat)
    ensures Encode(List(e), at) == [LIST] + Encode(e, at + 1) && Size(List(e)) == 1 + Size(e)
  {
  }

  lemma {:induction false} InlineWords(cs: seq<Layout>, index: nat, other: nat)
    requires AllInline(cs)
    ensures BodySize(cs) == 0 && Bodies(cs, index) == [] == Bodies(cs, other) && Slots(cs, index) == Slots(cs, other)
  {
    if cs != [] {
      InlineWords(cs[1..], index, other);
    }
  }

  /** Maps with the same slots differ in what is appended to their bodies. */
  lemma SameMap(cs: seq<Layout>, ds: seq<Layout>, at: nat, x: seq<nat>, y: seq<nat>)
    requires |cs| == |ds|
    requires var index := at + 2 + |cs|;
             Slots(cs, index) == Slots(ds, index) && Bodies(cs, index) + x == Bodies(ds, index) + y
    ensures Encode(Map(cs), at) + x == Encode(Map(ds), at) + y
    ensures Size(Map(cs)) == 2 + |cs| + BodySize(cs) && Size(Map(ds)) == 2 + |ds| + BodySize(ds)
  {
    hide *;
    EncodeMap(cs, at);
    EncodeMap(ds, at);
    var index := at + 2 + |cs|;
    var head := [MAP, |cs|] + Slots(cs, index);
    ConcatAssociates(head, Bodies(cs, index), x);
    ConcatAssociates(head, Bodies(ds, index), y);
  }

  lemma NothingAppended(a: seq<nat>)
    ensures a + [] == a
  {
  }

  lemma InlineChild(c: Layout, index: nat)
    requires c.IsInline()
    ensures BehindSize(c) == 0 && Behind(c, index) == [] && Slot(c, index) == Id(c)
  {
  }

  lemma PointedChild(c: Layout, index: nat)
    requires !c.IsInline()
    ensures BehindSize(c) == Size(c) && Behind(c, index) == Encode(c, index) && Slot(c, index) == index
  {
  }

  // ----- taking a body away and putting it elsewhere

  lemma {:induction false} WithoutLast(l: Layout, at: nat, q: nat) returns (m: Layout, body: Layout)
    requires IsId(q) && EndsWith(l, at, q)
    ensures !body.IsInline() && !m.IsInline() && at + Size(m) == q
    ensures Encode(l, at) == Encode(m, at) + Encode(body, q)
    ensures Solid(l) ==> Solid(m) && Solid(body)
    decreases l, 0
  {
    hide Encode, Slots, Bodies, BodySize, Size, EndsWithIn, IsId, AllSolid;
    match l
    case List(e) =>
      var f;
      f, body := WithoutLast(e, at + 1, q);
      m := List(f);
      ListWords(e, at);
      ListWords(f, at);
      ConcatAssociates([LIST], Encode(f, at + 1), Encode(body, q));
    case Map(cs) =>
      var ds;
      ds, body := WithoutLastIn(cs, at + 2 + |cs|, q);
      m := Map(ds);
      NothingAppended(Bodies(cs, at + 2 + |cs|));
      SameMap(cs, ds, at, [], Encode(body, q));
      NothingAppended(Encode(l, at));
  }

  lemma EndsWithInIs(cs: seq<Layout>, index: nat, q: nat)
    ensures EndsWithIn(cs, index, q)
            <==> && cs != []
                 && ((AllInline(cs[1..]) && Ends(cs[0], index, q)) || EndsWithIn(cs[1..], index + BehindSize(cs[0]), q))
  {
  }

  lemma {:induction false} WithoutLastIn(cs: seq<Layout>, index: nat, q: nat) returns (ds: seq<Layout>, body: Layout)
    requires IsId(q) && EndsWithIn(cs, index, q)
    ensures !body.IsInline() && index + BodySize(ds) == q
    ensures |ds| == |cs| && Slots(ds, index) == Slots(cs, index)
    ensures Bodies(cs, index) == Bodies(ds, index) + Encode(body, q)
    ensures AllSolid(cs) ==> AllSolid(ds) && Solid(body)
    decreases cs, 2
  {
    hide *;
    EndsWithInIs(cs, index, q);
    var c, rest := cs[0], cs[1..];
    assert cs == [c] + rest;
    Cons(c, rest, index);
    if AllInline(rest) && Ends(c, index, q) {
      var d;
      d, body := WithoutChild(c, index, q);
      ds := [d] + rest;
      Cons(d, rest, index);
      InlineWords(rest, index + BehindSize(c), index + BehindSize(d));
      NothingAppended(Behind(c, index));
      NothingAppended(Behind(d, index));
    } else {
      var es;
      es, body := WithoutLastIn(rest, index + BehindSize(c), q);
      ds := [c] + es;
      Cons(c, es, index);
      ConcatAssociates(Behind(c, index), Bodies(es, index + BehindSize(c)), Encode(body, q));
    }
  }

  lemma {:induction false} WithoutChild(c: Layout, index: nat, q: nat) returns (d: Layout, body: Layout)
    requires IsId(q) && Ends(c, index, q)
    ensures !body.IsInline() && index + BehindSize(d) == q && Slot(d, index) == Slot(c, index)
    ensures Behind(c, index) == Behind(d, index) + Encode(body, q)
    ensures Solid(c) ==> Solid(d) && Solid(body)
    decreases c, 1
  {
    hide Encode, Size, EndsWith;
    if index == q {
      d, body := InlineOf(q), c;
    } else {
      d, body := WithoutLast(c, index, q);
    }
  }

  lemma {:induction false} WithLast(l: Layout, at: nat, q: nat, body: Layout) returns (m: Layout)
    requires IsId(q) && HasRoom(l, q) && at + Size(l) == q && !body.IsInline()
    ensures !m.IsInline() && Encode(m, at) == Encode(l, at) + Encode(body, q)
    ensures Solid(l) && Solid(body) ==> Solid(m)
    decreases l, 0
  {
    hide Encode, Slots, Bodies, BodySize, Size, HasRoomIn, IsId, AllSolid;
    match l
    case List(e) =>
      ListWords(e, at);
      var f := WithLast(e, at + 1, q, body);
      m := List(f);
      ListWords(f, at);
      ConcatAssociates([LIST], Encode(e, at + 1), Encode(body, q));
    case Map(cs) =>
      SizeOfMap(cs);
      var ds := WithLastIn(cs, at + 2 + |cs|, q, body);
      m := Map(ds);
      NothingAppended(Bodies(ds, at + 2 + |cs|));
      SameMap(ds, cs, at, [], Encode(body, q));
      NothingAppended(Encode(m, at));
  }

  lemma SizeOfMap(cs: seq<Layout>)
    ensures Size(Map(cs)) == 2 + |cs| + BodySize(cs)
  {
  }

  lemma HasRoomInIs(cs: seq<Layout>, q: nat)
    ensures HasRoomIn(cs, q) <==> cs != [] && ((AllInline(cs[1..]) && RoomFor(cs[0], q)) || HasRoomIn(cs[1..], q))
  {
  }

  lemma {:induction false} WithLastIn(cs: seq<Layout>, index: nat, q: nat, body: Layout) returns (ds: seq<Layout>)
    requires IsId(q) && HasRoomIn(cs, q) && index + BodySize(cs) == q && !body.IsInline()
    ensures |ds| == |cs| && Slots(ds, index) == Slots(cs, index)
    ensures Bodies(ds, index) == Bodies(cs, index) + Encode(body, q)
    ensures AllSolid(cs) && Solid(body) ==> AllSolid(ds)
    decreases cs, 2
  {
    hide *;
    HasRoomInIs(cs, q);
    var c, rest := cs[0], cs[1..];
    assert cs == [c] + rest;
    Cons(c, rest, index);
    if AllInline(rest) && RoomFor(c, q) {
      InlineWords(rest, index + BehindSize(c), index);
      var d := WithChild(c, index, q, body);
      ds := [d] + rest;
      Cons(d, rest, index);
      InlineWords(rest, index + BehindSize(d), index);
      NothingAppended(Behind(c, index));
      NothingAppended(Behind(d, index));
    } else {
      var es := WithLastIn(rest, index + BehindSize(c), q, body);
      ds := [c] + es;
      Cons(c, es, index);
      ConcatAssociates(Behind(c, index), Bodies(rest, index + BehindSize(c)), Encode(body, q));
    }
  }

  lemma {:induction false} WithChild(c: Layout, index: nat, q: nat, body: Layout) returns (d: Layout)
    requires IsId(q) && RoomFor(c, q) && index + BehindSize(c) == q && !body.IsInline()
    ensures Slot(d, index) == Slot(c, index) && Behind(d, index) == Behind(c, index) + Encode(body, q)
    ensures BehindSize(d) == BehindSize(c) + Size(body)
    ensures Solid(c) && Solid(body) ==> Solid(d)
    decreases c, 1
  {
    hide Encode, Size, HasRoom;
    if c.IsInline() {
      d := body;
    } else {
      d := WithLast(c, index, q, body);
      assert |Encode(d, index)| == |Encode(c, index)| + |Encode(body, q)|;
    }
  }

  lemma IdAheadIs(cs: seq<Layout>, q: nat)
    ensures IdAhead(cs, q) <==> cs != [] && cs[0].IsInline() && (Id(cs[0]) == q || IdAhead(cs[1..], q))
    ensures AllInline(cs) <==> (cs != [] ==> cs[0].IsInline() && AllInline(cs[1..]))
  {
  }

  /** Puts a body that starts at q into the slot of that id ahead. */
  lemma {:induction false} PutAhead(cs: seq<Layout>, q: nat, body: Layout) returns (ds: seq<Layout>)
    requires IsId(q) && IdAhead(cs, q) && !body.IsInline()
    ensures |ds| == |cs| && Slots(ds, q) == Slots(cs, q + Size(body))
    ensures Bodies(ds, q) == Encode(body, q) + Bodies(cs, q + Size(body))
    ensures AllSolid(cs) && Solid(body) ==> AllSolid(ds)
  {
    hide *;
    IdAheadIs(cs, q);
    var c, rest := cs[0], cs[1..];
    assert cs == [c] + rest;
    Cons(c, rest, q + Size(body));
    InlineChild(c, q + Size(body));
    InlineChild(c, q);
    if Id(c) == q {
      ds := [body] + rest;
      Cons(body, rest, q);
      PointedChild(body, q);
    } else {
      var es := PutAhead(rest, q, body);
      ds := [c] + es;
      Cons(c, es, q);
    }
  }

  /** Takes away the next body, which starts at q, and leaves an inline element in its slot. */
  lemma {:induction false} TakeAhead(cs: seq<Layout>, q: nat) returns (ds: seq<Layout>, body: Layout)
    requires IsId(q) && !AllInline(cs)
    ensures !body.IsInline() && |ds| == |cs| && Slots(ds, q + Size(body)) == Slots(cs, q)
    ensures Bodies(cs, q) == Encode(body, q) + Bodies(ds, q + Size(body))
    ensures AllSolid(cs) ==> AllSolid(ds) && Solid(body)
  {
    hide *;
    IdAheadIs(cs, q);
    var c, rest := cs[0], cs[1..];
    assert cs == [c] + rest;
    Cons(c, rest, q);
    if c.IsInline() {
      InlineChild(c, q);
      var es;
      es, body := TakeAhead(rest, q);
      ds := [c] + es;
      InlineChild(c, q + Size(body));
      Cons(c, es, q + Size(body));
    } else {
      PointedChild(c, q);
      var hole := InlineOf(q);
      body, ds := c, [hole] + rest;
      InlineChild(hole, q + Size(body));
      InlineIsSolid(hole);
      Cons(hole, rest, q + Size(body));
    }
  }

  lemma InlineIsSolid(c: Layout)
    requires c.IsInline()
    ensures Solid(c)
  {
  }

  // ----- a twin

  lemma {:induction false} TwinOf(l: Layout, at: nat) returns (m: Layout)
    requires HasTwin(l, at)
    ensures m != l && Encode(m, at) == Encode(l, at) && !m.IsInline()
    ensures Solid(l) ==> Solid(m)
    decreases l, 0
  {
    hide Encode, Slots, Bodies, BodySize, Size, TwinIn, AllSolid;
    match l
    case List(e) =>
      var f := TwinOf(e, at + 1);
      m := List(f);
      ListWords(e, at);
      ListWords(f, at);
    case Map(cs) =>
      var ds := TwinOfAll(cs, at + 2 + |cs|);
      m := Map(ds);
      SameMap(cs, ds, at, [], []);
      NothingAppended(Encode(l, at));
      NothingAppended(Encode(m, at));
  }

  lemma TwinInIs(cs: seq<Layout>, index: nat)
    ensures TwinIn(cs, index)
            <==> && cs != []
                 && (|| TwinIn(cs[1..], index + BehindSize(cs[0]))
                     || HasTwin(cs[0], index)
                     || MovesRight(cs, index, NUMBER) || MovesRight(cs, index, STRING)
                     || MovesLeft(cs, index))
  {
  }

  lemma {:induction false} TwinOfAll(cs: seq<Layout>, index: nat) returns (ds: seq<Layout>)
    requires TwinIn(cs, index)
    ensures ds != cs && |ds| == |cs|
    ensures Slots(ds, index) == Slots(cs, index) && Bodies(ds, index) == Bodies(cs, index)
    ensures AllSolid(cs) ==> AllSolid(ds)
    decreases cs, 1
  {
    hide *;
    TwinInIs(cs, index);
    var c, rest := cs[0], cs[1..];
    assert cs == [c] + rest;
    Cons(c, rest, index);
    if TwinIn(rest, index + BehindSize(c)) {
      var es := TwinOfAll(rest, index + BehindSize(c));
      ds := [c] + es;
      Cons(c, es, index);
      assert ds[1..] == es;
    } else if HasTwin(c, index) {
      var d := TwinOf(c, index);
      NoInlineTwin(c, index);
      PointedChild(c, index);
      PointedChild(d, index);
      ds := [d] + rest;
      Cons(d, rest, index);
      assert ds[0] == d;
    } else if MovesLeft(cs, index) {
      ds := MovedLeft(cs, index);
    } else {
      ds := MovedRight(cs, index, if MovesRight(cs, index, NUMBER) then NUMBER else STRING);
    }
  }

  lemma NoInlineTwin(c: Layout, index: nat)
    requires HasTwin(c, index)
    ensures !c.IsInline()
  {
  }

  lemma NumberAndString()
    ensures IsId(NUMBER) && IsId(STRING) && NUMBER == 252 && STRING == 253
  {
  }

  lemma {:induction false} MovedRight(cs: seq<Layout>, index: nat, q: nat) returns (ds: seq<Layout>)
    requires cs != [] && (q == NUMBER || q == STRING) && MovesRight(cs, index, q)
    ensures ds != cs && |ds| == |cs|
    ensures Slots(ds, index) == Slots(cs, index) && Bodies(ds, index) == Bodies(cs, index)
    ensures AllSolid(cs) ==> AllSolid(ds)
    decreases cs, 0
  {
    hide Encode, Slots, Bodies, Ends, RoomFor, Slot, Behind, BehindSize, BodySize, Size, IdAhead, AllInline,
         AllSolid, Solid;
    var c, rest := cs[0], cs[1..];
    assert cs == [c] + rest;
    Cons(c, rest, index);
    var d, body := WithoutChild(c, index, q);
    var es := PutAhead(rest, q, body);
    ds := [d] + es;
    Cons(d, es, index);
    ConcatAssociates(Behind(d, index), Encode(body, q), Bodies(rest, q + Size(body)));
    assert |Behind(c, index)| == |Behind(d, index)| + |Encode(body, q)|;
    assert ds[0] == d;
  }

  lemma {:induction false} MovedLeft(cs: seq<Layout>, index: nat) returns (ds: seq<Layout>)
    requires cs != [] && MovesLeft(cs, index)
    ensures ds != cs && |ds| == |cs|
    ensures Slots(ds, index) == Slots(cs, index) && Bodies(ds, index) == Bodies(cs, index)
    ensures AllSolid(cs) ==> AllSolid(ds)
    decreases cs, 0
  {
    hide Encode, Slots, Bodies, Ends, RoomFor, Slot, Behind, BehindSize, BodySize, Size, IdAhead, AllInline,
         AllSolid, Solid;
    var c, rest := cs[0], cs[1..];
    assert cs == [c] + rest;
    Cons(c, rest, index);
    var q := index + BehindSize(c);
    var es, body := TakeAhead(rest, q);
    var d := WithChild(c, index, q, body);
    ds := [d] + es;
    Cons(d, es, index);
    ConcatAssociates(Behind(c, index), Encode(body, q), Bodies(es, q + Size(body)));
    assert ds[0] == d;
  }

  // ----- two layouts that are read from the same words

  /** The words of c are those of d and one more body that starts behind them, for which d has a slot. */
  predicate Longer(c: Layout, d: Layout, at: nat) {
    var q := at + Size(d);
    Size(c) > 1 + Size(d) && IsId(q) && EndsWith(c, at, q) && HasRoom(d, q)
  }

  predicate LongerChild(c: Layout, d: Layout, index: nat) {
    var q := index + BehindSize(d);
    BehindSize(c) > 1 + BehindSize(d) && IsId(q) && Ends(c, index, q) && RoomFor(d, q)
  }

  predicate LongerIn(cs: seq<Layout>, ds: seq<Layout>, index: nat) {
    var q := index + BodySize(ds);
    BodySize(cs) > 1 + BodySize(ds) && IsId(q) && EndsWithIn(cs, index, q) && HasRoomIn(ds, q)
  }

  /** Two layouts at the same place are the same, or both have twins, or one of them has one more body at its end. */
  predicate Alike(c: Layout, d: Layout, at: nat) {
    c == d || (HasTwin(c, at) && HasTwin(d, at)) || Longer(c, d, at) || Longer(d, c, at)
  }

  predicate AlikeIn(cs: seq<Layout>, ds: seq<Layout>, index: nat) {
    cs == ds || (TwinIn(cs, index) && TwinIn(ds, index)) || LongerIn(cs, ds, index) || LongerIn(ds, cs, index)
  }

  lemma SizeOfBehind(c: Layout)
    ensures BehindSize(c) == if c.IsInline() then 0 else Size(c)
    ensures !c.IsInline() ==> Size(c) > 1
  {
  }

  /**
   Behind a child that is longer than the one that is read from the same slot: if a body still comes
   there without it, then its slot has an inline id beside it.
   */
  lemma {:induction false} NextBody(s: seq<nat>, slot: nat, xs: seq<Layout>, ys: seq<Layout>, q: nat, n: nat)
    requires IsId(q) && n > 1 && |xs| == |ys|
    requires HoldsChildren(s, slot, xs, q + n) && HoldsChildren(s, slot, ys, q)
    ensures (AllInline(xs) && AllInline(ys)) || (IdAhead(xs, q) && !AllInline(ys))
    decreases |xs|
  {
    hide HoldsChildren, Slots, Bodies, BodySize, BehindSize;
    if xs != [] {
      FirstChild(s, slot, xs, q + n);
      FirstChild(s, slot, ys, q);
      if xs[0].IsInline() && ys[0].IsInline() {
        SizeOfBehind(xs[0]);
        SizeOfBehind(ys[0]);
        NextBody(s, slot + 1, xs[1..], ys[1..], q, n);
      }
    }
  }

  lemma {:induction false} FirstIsLonger(s: seq<nat>, slot: nat, cs: seq<Layout>, ds: seq<Layout>, index: nat)
    requires cs != [] && |cs| == |ds| && LongerChild(cs[0], ds[0], index)
    requires HoldsChildren(s, slot, cs, index) && HoldsChildren(s, slot, ds, index)
    ensures AlikeIn(cs, ds, index) && AlikeIn(ds, cs, index)
  {
    hide *;
    var q := index + BehindSize(ds[0]);
    FirstChild(s, slot, cs, index);
    FirstChild(s, slot, ds, index);
    LongerChildIs(cs[0], ds[0], index);
    NextBody(s, slot + 1, cs[1..], ds[1..], q, BehindSize(cs[0]) - BehindSize(ds[0]));
    if AllInline(cs[1..]) && AllInline(ds[1..]) {
      LongerFirst(cs, ds, index);
    } else {
      BodyCanMove(cs, ds, index);
    }
  }

  lemma LongerChildIs(c: Layout, d: Layout, index: nat)
    requires LongerChild(c, d, index)
    ensures BehindSize(c) > 1 + BehindSize(d) && IsId(index + BehindSize(d))
  {
  }

  lemma LongerFirst(cs: seq<Layout>, ds: seq<Layout>, index: nat)
    requires cs != [] && |cs| == |ds| && LongerChild(cs[0], ds[0], index) && AllInline(cs[1..]) && AllInline(ds[1..])
    ensures AlikeIn(cs, ds, index) && AlikeIn(ds, cs, index)
  {
    hide Slots, Bodies, Encode, EndsWith, HasRoom, Ends, RoomFor, IsId, BehindSize, TwinIn;
    InlineWords(cs[1..], index, index);
    InlineWords(ds[1..], index, index);
    assert LongerIn(cs, ds, index);
  }

  lemma BodyCanMove(cs: seq<Layout>, ds: seq<Layout>, index: nat)
    requires cs != [] && |cs| == |ds| && LongerChild(cs[0], ds[0], index)
    requires IdAhead(cs[1..], index + BehindSize(ds[0])) && !AllInline(ds[1..])
    ensures AlikeIn(cs, ds, index) && AlikeIn(ds, cs, index)
  {
    hide Ends, RoomFor, IsId, BehindSize, HasTwin, LongerIn, IdAhead, AllInline;
    var q := index + BehindSize(ds[0]);
    IdIs(q);
    assert MovesRight(cs, index, q) && MovesLeft(ds, index);
  }

  lemma IdIs(q: nat)
    ensures IsId(q) <==> q == NUMBER || q == STRING
  {
  }

  lemma {:induction false} ReadFromSameWords(s: seq<nat>, c: Layout, d: Layout, at: nat)
    requires Holds(s, c, at) && Holds(s, d, at)
    ensures Alike(c, d, at)
    decreases c, 0
  {
    hide *;
    FirstWord(s, c, at);
    FirstWord(s, d, at);
    SameKinds(c, d, at);
    match c
    case Number =>
    case String =>
    case List(e) =>
      ElementIsHeld(s, e, at);
      ElementIsHeld(s, d.element, at);
      ReadFromSameWords(s, e, d.element, at + 1);
      AlikeLists(e, d.element, at);
    case Map(cs) =>
      CountIsHeld(s, cs, at);
      CountIsHeld(s, d.children, at);
      MapHoldsChildren(s, cs, at);
      MapHoldsChildren(s, d.children, at);
      ChildrenReadFromSameWords(s, at + 2, cs, d.children, at + 2 + |cs|);
      AlikeMaps(cs, d.children, at);
  }

  lemma SameKinds(c: Layout, d: Layout, at: nat)
    requires Id(c) == Id(d)
    ensures (c.Number? <==> d.Number?) && (c.String? <==> d.String?) && (c.List? <==> d.List?) && (c.Map? <==> d.Map?)
    ensures c == d ==> Alike(c, d, at)
  {
    hide HasTwin, Longer;
  }

  lemma FirstWord(s: seq<nat>, l: Layout, at: nat)
    requires Holds(s, l, at)
    ensures at < |s| && s[at] == Id(l)
  {
    assert s[at] == s[at..at + Size(l)][0];
  }

  lemma ElementIsHeld(s: seq<nat>, e: Layout, at: nat)
    requires Holds(s, List(e), at)
    ensures Holds(s, e, at + 1)
  {
    hide Encode;
    ListWords(e, at);
    assert s[at + 1..at + 1 + Size(e)] == s[at..at + 1 + Size(e)][1..];
  }

  lemma CountIsHeld(s: seq<nat>, cs: seq<Layout>, at: nat)
    requires Holds(s, Map(cs), at)
    ensures at + 1 < |s| && s[at + 1] == |cs|
  {
    MapCount(cs, at);
    assert s[at + 1] == s[at..at + Size(Map(cs))][1];
  }

  lemma AlikeLists(e: Layout, f: Layout, at: nat)
    requires Alike(e, f, at + 1)
    ensures Alike(List(e), List(f), at)
  {
    hide Size, EndsWith, HasRoom, HasTwin, IsId;
    ListIs(e, at, at + 1 + Size(f));
    ListIs(f, at, at + 1 + Size(e));
  }

  lemma ListIs(e: Layout, at: nat, q: nat)
    ensures Size(List(e)) == 1 + Size(e) && (EndsWith(List(e), at, q) <==> EndsWith(e, at + 1, q))
    ensures HasTwin(List(e), at) <==> HasTwin(e, at + 1)
    ensures forall id: nat :: HasRoom(List(e), id) <==> HasRoom(e, id)
  {
  }

  lemma AlikeMaps(cs: seq<Layout>, ds: seq<Layout>, at: nat)
    requires |cs| == |ds| && AlikeIn(cs, ds, at + 2 + |cs|)
    ensures Alike(Map(cs), Map(ds), at)
  {
    hide EndsWithIn, HasRoomIn, TwinIn, BodySize, IsId;
    SizeOfMap(cs);
    SizeOfMap(ds);
  }

  lemma {:induction false} ChildrenReadFromSameWords(s: seq<nat>, slot: nat, cs: seq<Layout>, ds: seq<Layout>,
                                                     index: nat)
    requires |cs| == |ds| && HoldsChildren(s, slot, cs, index) && HoldsChildren(s, slot, ds, index)
    ensures AlikeIn(cs, ds, index)
    decreases cs, 1
  {
    hide *;
    if cs == [] {
      SameIsAlike(cs, ds, index);
    } else {
      var c, d := cs[0], ds[0];
      FirstChild(s, slot, cs, index);
      FirstChild(s, slot, ds, index);
      if !c.IsInline() && !d.IsInline() {
        ReadFromSameWords(s, c, d, index);
      }
      FirstAlike(c, d, index);
      if c == d {
        ChildrenReadFromSameWords(s, slot + 1, cs[1..], ds[1..], index + BehindSize(c));
        AlikeBehind(cs, ds, index);
      } else if LongerChild(c, d, index) {
        FirstIsLonger(s, slot, cs, ds, index);
      } else if LongerChild(d, c, index) {
        FirstIsLonger(s, slot, ds, cs, index);
      } else {
        TwinsFirst(cs, ds, index);
      }
    }
  }

  lemma SameIsAlike(cs: seq<Layout>, ds: seq<Layout>, index: nat)
    requires cs == ds
    ensures AlikeIn(cs, ds, index)
  {
    hide TwinIn, LongerIn;
  }

  lemma FirstAlike(c: Layout, d: Layout, index: nat)
    requires Slot(c, index) == Slot(d, index)
    requires !c.IsInline() && !d.IsInline() ==> Alike(c, d, index)
    ensures c == d || LongerChild(c, d, index) || LongerChild(d, c, index) || (HasTwin(c, index) && HasTwin(d, index))
  {
    hide EndsWith, HasRoom, HasTwin, Size;
    SizeOfBehind(c);
    SizeOfBehind(d);
  }

  lemma TwinsFirst(cs: seq<Layout>, ds: seq<Layout>, index: nat)
    requires cs != [] && ds != [] && HasTwin(cs[0], index) && HasTwin(ds[0], index)
    ensures AlikeIn(cs, ds, index)
  {
    hide HasTwin, LongerIn, MovesRight, MovesLeft;
  }

  lemma AlikeBehind(cs: seq<Layout>, ds: seq<Layout>, index: nat)
    requires |cs| == |ds| > 0 && cs[0] == ds[0] && AlikeIn(cs[1..], ds[1..], index + BehindSize(cs[0]))
    ensures AlikeIn(cs, ds, index)
  {
    hide EndsWithIn, HasRoomIn, TwinIn, BodySize, BehindSize, IsId;
    assert cs == [cs[0]] + cs[1..] && ds == [ds[0]] + ds[1..];
    var next := index + BehindSize(cs[0]);
    LastIsBehind(cs, index, next + BodySize(ds[1..]));
    LastIsBehind(ds, index, next + BodySize(cs[1..]));
  }

  /** What holds of the children behind the first holds of all. */
  lemma LastIsBehind(cs: seq<Layout>, index: nat, q: nat)
    requires cs != []
    ensures BodySize(cs) == BehindSize(cs[0]) + BodySize(cs[1..])
    ensures EndsWithIn(cs[1..], index + BehindSize(cs[0]), q) ==> EndsWithIn(cs, index, q)
    ensures TwinIn(cs[1..], index + BehindSize(cs[0])) ==> TwinIn(cs, index)
    ensures forall id: nat :: HasRoomIn(cs[1..], id) ==> HasRoomIn(cs, id)
  {
    hide BehindSize, MovesRight, MovesLeft, HasTwin, Ends, RoomFor, AllInline;
  }

  // ----- the exact condition

  /** No other layout has the schema of a exactly if no body of a can move to another slot. */
  lemma OwnSchemaExactly(a: Layout)
    ensures (forall b: Layout :: SchemaOf(b) == SchemaOf(a) ==> b == a) <==> !HasTwin(a, 0)
  {
    hide *;
    if HasTwin(a, 0) {
      var b := TwinOf(a, 0);
      SchemaOfIs(a);
      SchemaOfIs(b);
      assert SchemaOf(b) == SchemaOf(a);
    } else {
      forall b: Layout | SchemaOf(b) == SchemaOf(a) ensures b == a {
        SchemaOfIs(a);
        SchemaOfIs(b);
        ReadFromSameWords(SchemaOf(a), a, b, 0);
        AlikeOfOneSize(a, b, 0);
      }
    }
  }

  /** Up to 253 words, and wherever no pointer is an inline id, there is no twin. */
  lemma UnambiguousHasNoTwin(l: Layout)
    ensures Unambiguous(l, 0) ==> !HasTwin(l, 0)
    ensures Size(l) <= 253 ==> !HasTwin(l, 0)
  {
    hide *;
    NumberAndString();
    if Size(l) <= 253 {
      SmallIsUnambiguous(l, 0);
    }
    if Unambiguous(l, 0) && HasTwin(l, 0) {
      var m := TwinOf(l, 0);
      UnambiguousHasNoPrefix(l, m, 0);
    }
  }

  lemma SchemaOfIs(l: Layout)
    ensures SchemaOf(l) == Encode(l, 0) && |SchemaOf(l)| == Size(l) && Holds(SchemaOf(l), l, 0)
    ensures forall s: seq<nat> :: s == SchemaOf(l) ==> Holds(s, l, 0)
  {
    SchemaHolds(l);
  }

  lemma AlikeOfOneSize(c: Layout, d: Layout, at: nat)
    requires Alike(c, d, at) && Size(c) == Size(d)
    ensures c == d || HasTwin(c, at)
  {
  }

  // ----- examples

  function Strings(n: nat): (cs: seq<Layout>)
    ensures |cs| == n
  {
    if n == 0 then [] else [String] + Strings(n - 1)
  }

  lemma {:induction false} AmongStrings(n: nat, index: nat)
    ensures AllInline(Strings(n)) && !IdAhead(Strings(n), NUMBER) && !TwinIn(Strings(n), index)
  {
    if n > 0 {
      AmongStrings(n - 1, index);
      assert Strings(n)[1..] == Strings(n - 1);
    }
  }

  /** A pointer that is an inline id does no harm where no slot beside it has that id. */
  lemma AmbiguousWithoutTwin()
    ensures var l := Map([List(Number)] + Strings(249)); !Unambiguous(l, 0) && !HasTwin(l, 0)
  {
    hide Strings, AllInline, IdAhead;
    var cs := [List(Number)] + Strings(249);
    assert cs[1..] == Strings(249) && |cs| == 250;
    AmongStrings(249, 252 + BehindSize(cs[0]));
    assert !Ends(cs[0], 252, STRING) && !HasTwin(cs[0], 252);
    assert !TwinIn(cs, 252);
    assert !UnambiguousAll(cs, 252);
  }

  /** A body can also move out of a map into the map around it. */
  lemma TwinAcrossMaps()
    ensures HasTwin(Map([Map([List(Number)] + Strings(245)), Number]), 0)
  {
    hide Strings, AllInline;
    var cs := [List(Number)] + Strings(245);
    assert cs[1..] == Strings(245) && |cs| == 246;
    AmongStrings(245, 0);
    assert EndsWithIn(cs, 252, NUMBER);
    var ds := [Map(cs), Number];
    assert EndsWith(ds[0], 4, NUMBER) && ds[1..] == [Number] && IdAhead(ds[1..], NUMBER);
    assert MovesRight(ds, 4, NUMBER);
  }
}
