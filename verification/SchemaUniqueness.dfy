/** Which layouts can be told apart by their schemas. */
module SchemaUniqueness {
  import opened Schema

  // ----- unambiguous layouts

  lemma SameIds(a: Layout, b: Layout, at: nat)
    requires Encode(b, at) <= Encode(a, at)
    ensures Id(a) == Id(b)
  {
    assert Encode(b, at)[0] == Encode(a, at)[0];
  }

  /** The first pointer leads to where the bodies start. */
  lemma {:induction false} FirstPointer(cs: seq<Layout>, index: nat) returns (j: nat)
    requires UnambiguousAll(cs, index) && Bodies(cs, index) != []
    ensures j < |cs| && Slots(cs, index)[j] == index && index != NUMBER && index != STRING
  {
    if cs[0].IsInline() {
      j := FirstPointer(cs[1..], index);
      j := j + 1;
    } else {
      j := 0;
    }
  }

  /** A slot is an inline id or a pointer to where the bodies start or behind it. */
  lemma {:induction false} SlotsLeadBehind(cs: seq<Layout>, index: nat, j: nat)
    requires j < |cs|
    ensures Slots(cs, index)[j] == NUMBER || Slots(cs, index)[j] == STRING || Slots(cs, index)[j] >= index
  {
    if j > 0 {
      SlotsLeadBehind(cs[1..], index + BehindSize(cs[0]), j - 1);
    }
  }

  lemma PrefixOfTwo(e: seq<nat>, u: seq<nat>, f: seq<nat>, v: seq<nat>)
    requires f + v <= e + u
    ensures |f| <= |e| ==> f <= e
    ensures |e| < |f| ==> u != []
    ensures f == e ==> v <= u
  {
    if |f| <= |e| {
      assert f == (f + v)[..|f|] == (e + u)[..|f|] == e[..|f|];
    }
    if f == e {
      assert v == (f + v)[|f|..] && u == (e + u)[|f|..];
      assert forall i :: 0 <= i < |v| ==> v[i] == (f + v)[|f| + i] == (e + u)[|f| + i] == u[i];
    }
  }

  /** Words of a layout that start those of an unambiguous layout are all of them: the layouts are the same. */
  lemma {:induction false} UnambiguousHasNoPrefix(a: Layout, b: Layout, at: nat)
    requires Unambiguous(a, at) && Encode(b, at) <= Encode(a, at)
    ensures a == b
    decreases a, 0
  {
    SameIds(a, b, at);
    match a
    case Number =>
    case String =>
    case List(e) =>
      assert Encode(b.element, at + 1) == Encode(b, at)[1..] && Encode(e, at + 1) == Encode(a, at)[1..];
      UnambiguousHasNoPrefix(e, b.element, at + 1);
    case Map(cs) =>
      SameCounts(cs, b.children, at);
      SameMapWords(cs, b.children, at, at + 2 + |cs|);
      ChildrenHaveNoPrefix(cs, b.children, at + 2 + |cs|);
  }

  lemma MapCount(cs: seq<Layout>, at: nat)
    ensures |Encode(Map(cs), at)| > 1 && Encode(Map(cs), at)[1] == |cs|
  {
  }

  lemma SameCounts(cs: seq<Layout>, ds: seq<Layout>, at: nat)
    requires Encode(Map(ds), at) <= Encode(Map(cs), at)
    ensures |ds| == |cs|
  {
    hide *;
    MapCount(cs, at);
    MapCount(ds, at);
    assert Encode(Map(ds), at)[1] == Encode(Map(cs), at)[1];
  }

  lemma SameMapWords(cs: seq<Layout>, ds: seq<Layout>, at: nat, index: nat)
    requires Encode(Map(ds), at) <= Encode(Map(cs), at) && |ds| == |cs| && index == at + 2 + |cs|
    ensures Slots(ds, index) == Slots(cs, index) && Bodies(ds, index) <= Bodies(cs, index)
  {
    hide *;
    var head: seq<nat> := [MAP, |cs|];
    MapParts(cs, at, head, index);
    MapParts(ds, at, head, index);
    SameParts(Encode(Map(cs), at), Encode(Map(ds), at), head, Slots(cs, index), Bodies(cs, index),
              Slots(ds, index), Bodies(ds, index));
  }

  lemma MapParts(cs: seq<Layout>, at: nat, head: seq<nat>, index: nat)
    requires head == [MAP, |cs|] && index == at + 2 + |cs|
    ensures Encode(Map(cs), at) == head + Slots(cs, index) + Bodies(cs, index) && |Slots(cs, index)| == |cs|
  {
    EncodeMap(cs, at);
  }

  lemma SameParts(w: seq<nat>, x: seq<nat>, head: seq<nat>, s: seq<nat>, u: seq<nat>, t: seq<nat>, v: seq<nat>)
    requires |s| == |t| && w == head + s + u && x == head + t + v && x <= w
    ensures s == t && v <= u
  {
    assert s == w[|head|..|head| + |s|] && t == x[|head|..|head| + |s|];
    assert v == x[|head| + |s|..] && u == w[|head| + |s|..];
    forall i | 0 <= i < |s| ensures s[i] == t[i] {
      assert w[|head| + i] == x[|head| + i];
    }
    forall i | 0 <= i < |v| ensures v[i] == u[i] {
      assert w[|head| + |s| + i] == x[|head| + |s| + i];
    }
  }

  /** The first child of b cannot be longer than that of a: where that of a ends, a has another one or nothing. */
  lemma {:induction false} FirstIsNotLonger(cs: seq<Layout>, ds: seq<Layout>, index: nat, next: nat)
    requires |cs| == |ds| && UnambiguousAll(cs, index) && index < next
    requires Bodies(cs, index) != []
    ensures Slots(ds, next) != Slots(cs, index)
  {
    var j := FirstPointer(cs, index);
    SlotsLeadBehind(ds, next, j);
  }

  lemma UnambiguousRest(cs: seq<Layout>, index: nat)
    requires cs != [] && UnambiguousAll(cs, index)
    ensures UnambiguousAll(cs[1..], index + BehindSize(cs[0]))
    ensures !cs[0].IsInline() ==> index != NUMBER && index != STRING && Unambiguous(cs[0], index)
  {
  }

  lemma {:induction false} ChildrenHaveNoPrefix(cs: seq<Layout>, ds: seq<Layout>, index: nat)
    requires |cs| == |ds| && UnambiguousAll(cs, index)
    requires Slots(ds, index) == Slots(cs, index) && Bodies(ds, index) <= Bodies(cs, index)
    ensures cs == ds
    decreases cs, 1
  {
    hide *;
    if cs != [] {
      var c, d := cs[0], ds[0];
      var p, q := index + BehindSize(c), index + BehindSize(d);
      SlotsAre(cs, index);
      SlotsAre(ds, index);
      BodiesAre(cs, index);
      BodiesAre(ds, index);
      UnambiguousRest(cs, index);
      assert Slot(c, index) == Slots(cs, index)[0] == Slot(d, index);
      assert Slots(cs[1..], p) == Slots(cs, index)[1..] == Slots(ds[1..], q);
      PrefixOfTwo(Behind(c, index), Bodies(cs[1..], p), Behind(d, index), Bodies(ds[1..], q));
      if |Behind(c, index)| < |Behind(d, index)| {
        FirstIsNotLonger(cs[1..], ds[1..], p, q);
      } else {
        SameSlotKinds(c, d, index);
        if !c.IsInline() {
          BehindOfContainer(c, index);
          BehindOfContainer(d, index);
          UnambiguousHasNoPrefix(c, d, index);
        }
        assert cs == [c] + cs[1..] && ds == [d] + ds[1..];
        ChildrenHaveNoPrefix(cs[1..], ds[1..], p);
      }
    }
  }

  lemma SameSlotKinds(c: Layout, d: Layout, index: nat)
    requires Slot(c, index) == Slot(d, index) && |Behind(d, index)| <= |Behind(c, index)|
    requires !c.IsInline() ==> index != NUMBER && index != STRING
    ensures c.IsInline() <==> d.IsInline()
    ensures c.IsInline() ==> c == d
  {
  }

  /** No other layout has the schema of an unambiguous one. */
  lemma UnambiguousIsUnique(a: Layout, b: Layout)
    requires Unambiguous(a, 0) && SchemaOf(a) == SchemaOf(b)
    ensures a == b
  {
    UnambiguousHasNoPrefix(a, b, 0);
  }

  /** Up to 253 words, equal schemas mean equal layouts. */
  lemma SmallSchemasAreUnique(a: Layout, b: Layout)
    requires Size(a) <= 253 && SchemaOf(a) == SchemaOf(b)
    ensures a == b
  {
    SmallIsUnambiguous(a, 0);
    UnambiguousIsUnique(a, b);
  }

  // ----- the bound is tight

  function Numbers(n: nat): (cs: seq<Layout>)
    ensures |cs| == n
  {
    if n == 0 then [] else [Number] + Numbers(n - 1)
  }

  function NumberIds(n: nat): (s: seq<nat>)
    ensures |s| == n
  {
    if n == 0 then [] else [NUMBER] + NumberIds(n - 1)
  }

  lemma {:induction false} NumbersAreInline(n: nat, index: nat)
    ensures BodySize(Numbers(n)) == 0 && Bodies(Numbers(n), index) == [] && Slots(Numbers(n), index) == NumberIds(n)
  {
    if n > 0 {
      assert Numbers(n)[1..] == Numbers(n - 1);
      NumbersAreInline(n - 1, index);
    }
  }

  /** A list of lists of lists of numbers, k deep. */
  function Lists(k: nat): (l: Layout)
    requires k > 0
    ensures l.List?
  {
    List(if k == 1 then Number else Lists(k - 1))
  }

  lemma {:induction false} SizeOfLists(k: nat)
    requires k > 0
    ensures Size(Lists(k)) == k + 1
  {
    if k > 1 {
      SizeOfLists(k - 1);
    }
  }

  /** A map whose first child is l, followed by n numbers. */
  function First(l: Layout, n: nat): Layout {
    Map([l] + Numbers(n))
  }

  /** The same children with l in second place. */
  function Second(l: Layout, n: nat): Layout
    requires n > 0
  {
    Map([Number, l] + Numbers(n - 1))
  }

  lemma {:induction false} ThenNumbers(l: Layout, n: nat, index: nat)
    requires l.List?
    ensures Slots([l] + Numbers(n), index) == [index] + NumberIds(n)
    ensures Bodies([l] + Numbers(n), index) == Encode(l, index)
  {
    var cs := [l] + Numbers(n);
    assert cs[1..] == Numbers(n);
    NumbersAreInline(n, index + Size(l));
    SlotsAre(cs, index);
    BodiesAre(cs, index);
    BehindOfContainer(l, index);
    assert Slot(l, index) == index;
    hide Slots, Bodies, NumberIds, Encode, Size;
  }

  lemma {:induction false} FirstWords(l: Layout, n: nat)
    requires l.List?
    ensures SchemaOf(First(l, n)) == [MAP, n + 1, n + 3] + NumberIds(n) + Encode(l, n + 3)
    ensures Size(First(l, n)) == n + 3 + Size(l)
  {
    ThenNumbers(l, n, n + 3);
    EncodeMap([l] + Numbers(n), 0);
    hide Encode, Slots, Bodies, NumberIds, Numbers;
    assert [MAP, n + 1] + ([n + 3] + NumberIds(n)) == [MAP, n + 1, n + 3] + NumberIds(n);
    assert |SchemaOf(First(l, n))| == Size(First(l, n));
  }

  lemma {:induction false} SecondWords(l: Layout, n: nat)
    requires n > 0 && l.List?
    ensures SchemaOf(Second(l, n)) == [MAP, n + 1, NUMBER, n + 3] + NumberIds(n - 1) + Encode(l, n + 3)
  {
    var rest := [l] + Numbers(n - 1);
    var cs := [Number] + rest;
    assert Second(l, n).children == cs;
    assert cs[1..] == rest && |cs| == n + 1;
    hide *;
    EncodeMap(cs, 0);
    InlineFirst(Number, rest, n + 3);
    ThenNumbers(l, n - 1, n + 3);
    SchemaIs(Second(l, n));
    SecondJoined(n, NumberIds(n - 1), Encode(l, n + 3));
  }

  lemma SchemaIs(l: Layout)
    ensures SchemaOf(l) == Encode(l, 0)
    ensures Number.IsInline() && Id(Number) == NUMBER
  {
  }

  lemma SecondJoined(n: nat, ids: seq<nat>, body: seq<nat>)
    ensures [MAP, n + 1] + ([NUMBER] + ([n + 3] + ids)) + body == [MAP, n + 1, NUMBER, n + 3] + ids + body
  {
    assert [NUMBER] + ([n + 3] + ids) == [NUMBER, n + 3] + ids;
    assert [MAP, n + 1] + ([NUMBER, n + 3] + ids) == [MAP, n + 1, NUMBER, n + 3] + ids;
  }

  lemma InlineFirst(c: Layout, cs: seq<Layout>, index: nat)
    requires c.IsInline()
    ensures Slots([c] + cs, index) == [Id(c)] + Slots(cs, index) && Bodies([c] + cs, index) == Bodies(cs, index)
  {
    assert ([c] + cs)[1..] == cs;
  }

  /** When the pointer is the id of a number, it cannot be told which of the two is which. */
  lemma {:induction false} CollidingSchemas(l: Layout, n: nat)
    requires l.List? && n + 3 == NUMBER
    ensures First(l, n) != Second(l, n) && SchemaOf(First(l, n)) == SchemaOf(Second(l, n))
    ensures Size(First(l, n)) == 252 + Size(l)
  {
    FirstWords(l, n);
    SecondWords(l, n);
    assert NumberIds(n) == [NUMBER] + NumberIds(n - 1);
    var a, b := [l] + Numbers(n), [Number, l] + Numbers(n - 1);
    assert a[0] != b[0];
    hide Encode, NumberIds, Numbers;
    assert [MAP, n + 1, NUMBER] + ([NUMBER] + NumberIds(n - 1)) == [MAP, n + 1, NUMBER, NUMBER] + NumberIds(n - 1);
  }

  /** The smallest such layouts have 254 words. */
  lemma SchemasOf254WordsCollide()
    ensures Size(First(List(Number), 249)) == 254 && First(List(Number), 249) != Second(List(Number), 249)
    ensures SchemaOf(First(List(Number), 249)) == SchemaOf(Second(List(Number), 249))
  {
    hide First, Second, SchemaOf;
    CollidingSchemas(List(Number), 249);
  }

  /** All layouts of n words have a schema of their own exactly if n is at most 253. */
  lemma SchemasAreUniqueExactlyUpTo253(n: nat)
    ensures n <= 253
            <==> forall a: Layout, b: Layout :: Size(a) == n && SchemaOf(a) == SchemaOf(b) ==> a == b
  {
    hide Size, SchemaOf;
    if n <= 253 {
      forall a: Layout, b: Layout | Size(a) == n && SchemaOf(a) == SchemaOf(b) ensures a == b {
        SmallSchemasAreUnique(a, b);
      }
    } else {
      var a, b := Collision(n);
      assert Size(a) == n && SchemaOf(a) == SchemaOf(b);
    }
  }

  lemma Collision(n: nat) returns (a: Layout, b: Layout)
    requires n > 253
    ensures Size(a) == n && SchemaOf(a) == SchemaOf(b) && a != b
  {
    hide *;
    var l, m := Lists(n - 253), 249;
    a, b := First(l, m), Second(l, m);
    NumberIsSmall();
    SizeOfLists(n - 253);
    CollidingSchemas(l, m);
  }

  lemma NumberIsSmall()
    ensures NUMBER == 252
  {
  }
}
