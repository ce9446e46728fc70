/**
 The static writer of schemas: it fills an array of 8-bit words in place.
 */
module StaticLayout {
  import opened Schema
  import opened SchemaUniqueness

  const WORD := 256

  /** A word of a static schema; larger numbers are truncated when they are stored. */
  type word = w: nat | w < WORD

  function Truncated(n: nat): word {
    n % WORD
  }

  function Narrow(s: seq<nat>): (r: seq<word>)
    ensures |r| == |s|
  {
    seq(|s|, i requires 0 <= i < |s| => Truncated(s[i]))
  }

  // ----- sizes

  /** get_size of a static layout: all children count in full, then the inline ones are taken off. */
  function GetSize(l: Layout): int
    decreases l
  {
    match l
    case Number => 1
    case String => 1
    case List(e) => 1 + GetSize(e)
    case Map(cs) => 2 + |cs| + SumOfSizes(cs) - InlineCount(cs)
  }

  function SumOfSizes(cs: seq<Layout>): int
    decreases cs
  {
    if cs == [] then 0 else GetSize(cs[0]) + SumOfSizes(cs[1..])
  }

  function InlineCount(cs: seq<Layout>): nat {
    if cs == [] then 0 else (if cs[0].IsInline() then 1 else 0) + InlineCount(cs[1..])
  }

  /** get_size is the number of words that are written. */
  lemma {:induction false} GetSizeIsWritten(l: Layout, at: nat)
    ensures GetSize(l) == |Encode(l, at)|
    decreases l, 0
  {
    match l
    case Number =>
    case String =>
    case List(e) => GetSizeIsWritten(e, at + 1);
    case Map(cs) => ChildSizes(cs, at);
  }

  lemma {:induction false} ChildSizes(cs: seq<Layout>, at: nat)
    ensures SumOfSizes(cs) - InlineCount(cs) == BodySize(cs)
    decreases cs, 1
  {
    if cs != [] {
      GetSizeIsWritten(cs[0], at);
      ChildSizes(cs[1..], at);
    }
  }

  // ----- words

  lemma NarrowJoins(a: seq<nat>, b: seq<nat>)
    ensures Narrow(a + b) == Narrow(a) + Narrow(b)
  {
  }

  // ----- the static writer

  /** s is before, but with these words from index at on. */
  ghost predicate Overwritten(s: seq<word>, before: seq<word>, at: nat, words: seq<word>) {
    at + |words| <= |before| && s == before[..at] + words + before[at + |words|..]
  }

  /** s is before, but with words in two places: the slots of a map and the bodies behind them. */
  ghost predicate OverwrittenTwice(s: seq<word>, before: seq<word>, base: nat, slots: seq<word>, index: nat,
                                   bodies: seq<word>) {
    && base + |slots| <= index && index + |bodies| <= |before|
    && s == before[..base] + slots + before[base + |slots|..index] + bodies + before[index + |bodies|..]
  }

  lemma OneWordIsOverwritten(s: seq<word>, at: nat, w: word)
    requires at < |s|
    ensures Overwritten(s[at := w], s, at, [w])
  {
  }

  lemma OverwrittenInTurn(s: seq<word>, middle: seq<word>, before: seq<word>, at: nat, front: seq<word>,
                          words: seq<word>)
    requires Overwritten(middle, before, at, front) && Overwritten(s, middle, at + |front|, words)
    ensures Overwritten(s, before, at, front + words)
  {
    assert middle[..at + |front|] == before[..at] + front;
    assert middle[at + |front| + |words|..] == before[at + |front| + |words|..];
  }

  lemma SlotAdded(s: seq<word>, before: seq<word>, base: nat, slots: seq<word>, index: nat, bodies: seq<word>, w: word)
    requires OverwrittenTwice(s, before, base, slots, index, bodies) && base + |slots| < index
    ensures base + |slots| < |s|
    ensures OverwrittenTwice(s[base + |slots| := w], before, base, slots + [w], index, bodies)
  {
    var at := base + |slots|;
    assert before[at..index] == [before[at]] + before[at + 1..index];
    var t := before[..base] + (slots + [w]) + before[at + 1..index] + bodies + before[index + |bodies|..];
    assert |t| == |s|;
    forall i | 0 <= i < |s| ensures s[at := w][i] == t[i] {
    }
  }

  lemma BodyAdded(s: seq<word>, middle: seq<word>, before: seq<word>, base: nat, slots: seq<word>, index: nat,
                  bodies: seq<word>, words: seq<word>)
    requires OverwrittenTwice(middle, before, base, slots, index, bodies)
    requires Overwritten(s, middle, index + |bodies|, words)
    ensures OverwrittenTwice(s, before, base, slots, index, bodies + words)
  {
    var front := before[..base] + slots + before[base + |slots|..index] + bodies;
    assert |front| == index + |bodies| && middle == front + before[index + |bodies|..];
    assert middle[..index + |bodies|] == front;
    assert middle[index + |bodies| + |words|..] == before[index + |bodies| + |words|..];
    assert front + words == before[..base] + slots + before[base + |slots|..index] + (bodies + words);
  }

  lemma GapIsClosed(s: seq<word>, before: seq<word>, base: nat, slots: seq<word>, index: nat, bodies: seq<word>)
    requires OverwrittenTwice(s, before, base, slots, index, bodies) && base + |slots| == index
    ensures Overwritten(s, before, base, slots + bodies)
  {
    assert before[base + |slots|..index] == [];
    assert before[..base] + slots + [] + bodies == before[..base] + (slots + bodies);
  }

  /** write_schema of an element; returns the updated write index. */
  method WriteSchema(l: Layout, schema: array<word>, index: nat) returns (next: nat)
    requires index + Size(l) <= schema.Length
    modifies schema
    ensures next == index + GetSize(l)
    ensures Overwritten(schema[..], old(schema[..]), index, Narrow(Encode(l, index)))
    decreases l, 1
  {
    hide *;
    GetSizeIsSize(l);
    match l
    case Number =>
      next := WriteId(l, schema, index);
      InlineWords(l, index);
    case String =>
      next := WriteId(l, schema, index);
      InlineWords(l, index);
    case List(e) =>
      next := WriteList(e, schema, index);
    case Map(cs) =>
      next := WriteMap(cs, schema, index);
  }

  method WriteId(l: Layout, schema: array<word>, index: nat) returns (next: nat)
    requires index < schema.Length
    modifies schema
    ensures next == index + 1
    ensures Overwritten(schema[..], old(schema[..]), index, [Truncated(Id(l))])
  {
    hide *;
    ghost var before := schema[..];
    schema[index] := Truncated(Id(l));
    assert schema[..] == before[index := Truncated(Id(l))];
    OneWordIsOverwritten(before, index, Truncated(Id(l)));
    next := index + 1;
  }

  method WriteList(e: Layout, schema: array<word>, index: nat) returns (next: nat)
    requires index + Size(List(e)) <= schema.Length
    modifies schema
    ensures next == index + GetSize(List(e))
    ensures Overwritten(schema[..], old(schema[..]), index, Narrow(Encode(List(e), index)))
    decreases List(e), 0
  {
    hide *;
    ghost var before := schema[..];
    ListWords(e, index);
    next := WriteId(List(e), schema, index);
    ghost var started := schema[..];
    next := WriteSchema(e, schema, next);
    OverwrittenInTurn(schema[..], started, before, index, [Truncated(Id(List(e)))], Narrow(Encode(e, index + 1)));
  }

  method WriteMap(cs: seq<Layout>, schema: array<word>, index: nat) returns (next: nat)
    requires index + Size(Map(cs)) <= schema.Length
    modifies schema
    ensures next == index + GetSize(Map(cs))
    ensures Overwritten(schema[..], old(schema[..]), index, Narrow(Encode(Map(cs), index)))
    decreases Map(cs), 0
  {
    hide *;
    ghost var before := schema[..];
    MapWords(cs, index);
    GetSizeIsSize(Map(cs));
    next := WriteHead(cs, schema, index);
    ghost var counted := schema[..];
    next := WriteChildren(cs, schema, next, next + |cs|);
    OverwrittenInTurn(schema[..], counted, before, index, MapHead(cs),
                      Narrow(Slots(cs, index + 2 + |cs|)) + Narrow(Bodies(cs, index + 2 + |cs|)));
  }

  /** The id and the number of children. */
  function MapHead(cs: seq<Layout>): (r: seq<word>)
    ensures |r| == 2
  {
    [Truncated(Id(Map(cs)))] + [Truncated(|cs|)]
  }

  method WriteHead(cs: seq<Layout>, schema: array<word>, index: nat) returns (next: nat)
    requires index + 2 <= schema.Length
    modifies schema
    ensures next == index + 2
    ensures Overwritten(schema[..], old(schema[..]), index, MapHead(cs))
  {
    hide Overwritten, Truncated, Id;
    ghost var before := schema[..];
    next := WriteId(Map(cs), schema, index);
    ghost var started := schema[..];
    schema[next] := Truncated(|cs|);
    assert schema[..] == started[next := Truncated(|cs|)];
    OneWordIsOverwritten(started, next, Truncated(|cs|));
    OverwrittenInTurn(schema[..], started, before, index, [Truncated(Id(Map(cs)))], [Truncated(|cs|)]);
    next := next + 1;
  }

  lemma GetSizeIsSize(l: Layout)
    ensures GetSize(l) == Size(l) > 0
  {
    GetSizeIsWritten(l, 0);
  }

  lemma InlineWords(l: Layout, at: nat)
    requires l.Number? || l.String?
    ensures Size(l) == 1 && Narrow(Encode(l, at)) == [Truncated(Id(l))]
  {
  }

  lemma ListWords(e: Layout, at: nat)
    ensures GetSize(List(e)) == 1 + GetSize(e) && GetSize(e) == Size(e) && Size(List(e)) == 1 + Size(e)
    ensures Narrow(Encode(List(e), at)) == [Truncated(Id(List(e)))] + Narrow(Encode(e, at + 1))
  {
    ListIs(e, at);
    GetSizeIsSize(e);
    hide *;
    NarrowJoins([Id(List(e))], Encode(e, at + 1));
    NarrowOne(Id(List(e)));
  }

  lemma ListIs(e: Layout, at: nat)
    ensures Encode(List(e), at) == [Id(List(e))] + Encode(e, at + 1)
    ensures Size(List(e)) == 1 + Size(e) && GetSize(List(e)) == 1 + GetSize(e)
  {
  }

  lemma NarrowOne(n: nat)
    ensures Narrow([n]) == [Truncated(n)]
  {
  }

  lemma MapWords(cs: seq<Layout>, at: nat)
    ensures Size(Map(cs)) == 2 + |cs| + BodySize(cs)
    ensures var index := at + 2 + |cs|;
            Narrow(Encode(Map(cs), at)) == MapHead(cs) + (Narrow(Slots(cs, index)) + Narrow(Bodies(cs, index)))
  {
    var index := at + 2 + |cs|;
    EncodeMap(cs, at);
    hide Encode, Slots, Bodies, Size, BodySize;
    var head := [MAP] + [|cs|];
    assert [MAP, |cs|] == head;
    NarrowJoins([MAP], [|cs|]);
    NarrowJoins(head, Slots(cs, index));
    NarrowJoins(head + Slots(cs, index), Bodies(cs, index));
    assert Narrow([MAP]) == [Truncated(MAP)] && Narrow([|cs|]) == [Truncated(|cs|)];
  }

  /** _write_children; returns the updated write index. */
  method WriteChildren(cs: seq<Layout>, schema: array<word>, base: nat, index: nat) returns (next: nat)
    requires base + |cs| == index && index + BodySize(cs) <= schema.Length
    modifies schema
    ensures next == index + BodySize(cs)
    ensures Overwritten(schema[..], old(schema[..]), base, Narrow(Slots(cs, index)) + Narrow(Bodies(cs, index)))
    decreases cs, 0
  {
    hide *;
    ghost var before := schema[..];
    next := index;
    NoneWritten(before, base, index);
    for i := 0 to |cs|
      invariant next == index + BodySize(cs[..i])
      invariant ChildrenWritten(schema[..], before, base, cs[..i], index)
    {
      ghost var s := schema[..];
      NextFits(cs, i);
      next := WriteChild(cs[i], schema, base + i, next);
      ChildWritten(schema[..], s, before, base, cs[..i], cs[i], index);
    }
    assert cs[..|cs|] == cs;
    AllWritten(schema[..], before, base, cs, index);
  }

  /** Slots and bodies of these children are written, the rest is as before. */
  ghost predicate ChildrenWritten(s: seq<word>, before: seq<word>, base: nat, cs: seq<Layout>, index: nat) {
    OverwrittenTwice(s, before, base, Narrow(Slots(cs, index)), index, Narrow(Bodies(cs, index)))
  }

  lemma NoneWritten(s: seq<word>, base: nat, index: nat)
    requires base <= index <= |s|
    ensures BodySize([]) == 0 && ChildrenWritten(s, s, base, [], index)
  {
  }

  lemma AllWritten(s: seq<word>, before: seq<word>, base: nat, cs: seq<Layout>, index: nat)
    requires ChildrenWritten(s, before, base, cs, index) && base + |cs| == index
    ensures Overwritten(s, before, base, Narrow(Slots(cs, index)) + Narrow(Bodies(cs, index)))
  {
    hide Slots, Bodies, Overwritten, OverwrittenTwice;
    GapIsClosed(s, before, base, Narrow(Slots(cs, index)), index, Narrow(Bodies(cs, index)));
  }

  lemma {:induction false} NextFits(cs: seq<Layout>, i: nat)
    requires i < |cs|
    ensures cs[..i + 1] == cs[..i] + [cs[i]]
    ensures BodySize(cs[..i + 1]) == BodySize(cs[..i]) + BehindSize(cs[i]) <= BodySize(cs)
  {
    hide *;
    assert cs[..i + 1] == cs[..i] + [cs[i]];
    OneMoreSlot(cs[..i], cs[i], 0);
    assert cs == cs[..i + 1] + cs[i + 1..];
    BodySizesAdd(cs[..i + 1], cs[i + 1..]);
  }

  lemma {:induction false} BodySizesAdd(a: seq<Layout>, b: seq<Layout>)
    ensures BodySize(a + b) == BodySize(a) + BodySize(b)
  {
    if a == [] {
      assert a + b == b;
    } else {
      assert (a + b)[1..] == a[1..] + b;
      BodySizesAdd(a[1..], b);
    }
  }

  lemma ChildWritten(s: seq<word>, middle: seq<word>, before: seq<word>, base: nat, cs: seq<Layout>, c: Layout,
                     index: nat)
    requires ChildrenWritten(middle, before, base, cs, index) && base + |cs| < index && base + |cs| < |middle|
    requires var next := index + BodySize(cs);
             Overwritten(s, middle[base + |cs| := Truncated(Slot(c, next))], next, Narrow(Behind(c, next)))
    ensures ChildrenWritten(s, before, base, cs + [c], index)
  {
    hide *;
    var next := index + BodySize(cs);
    var w, behind := Truncated(Slot(c, next)), Behind(c, next);
    var slots, bodies := Slots(cs, index), Bodies(cs, index);
    WrittenParts(middle, before, base, cs, index);
    SlotAdded(middle, before, base, Narrow(slots), index, Narrow(bodies), w);
    BodyAdded(s, middle[base + |cs| := w], before, base, Narrow(slots) + [w], index, Narrow(bodies), Narrow(behind));
    OneMoreSlot(cs, c, index);
    OneMoreBody(cs, c, index);
    NarrowJoins(slots, [Slot(c, next)]);
    NarrowJoins(bodies, behind);
    NarrowOne(Slot(c, next));
    WrittenParts(s, before, base, cs + [c], index);
  }

  lemma WrittenParts(s: seq<word>, before: seq<word>, base: nat, cs: seq<Layout>, index: nat)
    ensures ChildrenWritten(s, before, base, cs, index)
            <==> OverwrittenTwice(s, before, base, Narrow(Slots(cs, index)), index, Narrow(Bodies(cs, index)))
    ensures |Bodies(cs, index)| == BodySize(cs)
  {
  }

  /** _write_child; returns the updated write index. */
  method WriteChild(c: Layout, schema: array<word>, slot: nat, index: nat) returns (next: nat)
    requires slot < index && index + BehindSize(c) <= schema.Length && slot < schema.Length
    modifies schema
    ensures next == index + BehindSize(c)
    ensures Overwritten(schema[..], old(schema[..])[slot := Truncated(Slot(c, index))], index, Narrow(Behind(c, index)))
    decreases c, 2
  {
    hide *;
    ghost var before := schema[..];
    if c.Number? || c.String? {
      schema[slot] := Truncated(Id(c));
      next := index;
      InlineChild(c, index);
      NothingOverwritten(schema[..], index);
      assert schema[..] == before[slot := Truncated(Id(c))];
    } else {
      schema[slot] := Truncated(index);
      assert schema[..] == before[slot := Truncated(index)];
      PointedChild(c, index);
      next := WriteSchema(c, schema, index);
    }
  }

  lemma InlineChild(c: Layout, index: nat)
    requires c.Number? || c.String?
    ensures BehindSize(c) == 0 && Slot(c, index) == Id(c) && Narrow(Behind(c, index)) == []
  {
  }

  lemma PointedChild(c: Layout, index: nat)
    requires !c.Number? && !c.String?
    ensures BehindSize(c) == Size(c) == GetSize(c) && Slot(c, index) == index && Behind(c, index) == Encode(c, index)
  {
    GetSizeIsWritten(c, index);
  }

  lemma NothingOverwritten(s: seq<word>, at: nat)
    requires at <= |s|
    ensures Overwritten(s, s, at, [])
  {
  }

  // ----- agreement with the dynamic writer

  ghost predicate Fits(s: seq<nat>) {
    forall i :: 0 <= i < |s| ==> s[i] < WORD
  }

  lemma FitsWhenNotTruncated(s: seq<nat>)
    ensures Fits(s) <==> Narrow(s) == s
  {
    forall i | 0 <= i < |s| ensures s[i] < WORD <==> Narrow(s)[i] == s[i] {
    }
  }

  lemma FitsJoined(a: seq<nat>, b: seq<nat>)
    ensures Fits(a + b) <==> Fits(a) && Fits(b)
  {
    if Fits(a + b) {
      assert forall i :: 0 <= i < |a| ==> a[i] == (a + b)[i];
      assert forall i :: 0 <= i < |b| ==> b[i] == (a + b)[|a| + i];
    }
  }

  lemma FitsAlone(n: nat)
    ensures Fits([n]) <==> n < WORD
  {
    assert [n][0] == n;
  }

  /** Every map of the layout written at index at has fewer than 256 children, and every pointer is below 256. */
  predicate PointersFit(l: Layout, at: nat)
    decreases l
  {
    match l
    case Number => true
    case String => true
    case List(e) => PointersFit(e, at + 1)
    case Map(cs) => |cs| < WORD && ChildPointersFit(cs, at + 2 + |cs|)
  }

  predicate ChildPointersFit(cs: seq<Layout>, index: nat)
    decreases cs
  {
    cs != [] ==>
      && (!cs[0].IsInline() ==> index < WORD && PointersFit(cs[0], index))
      && ChildPointersFit(cs[1..], index + BehindSize(cs[0]))
  }

  lemma {:induction false} WordsFitExactly(l: Layout, at: nat)
    ensures Fits(Encode(l, at)) <==> PointersFit(l, at)
    decreases l, 0
  {
    match l
    case Number => FitsAlone(NUMBER);
    case String => FitsAlone(STRING);
    case List(e) =>
      WordsFitExactly(e, at + 1);
      FitsAlone(LIST);
      FitsJoined([LIST], Encode(e, at + 1));
    case Map(cs) =>
      var index := at + 2 + |cs|;
      EncodeMap(cs, at);
      hide Encode, Size, BodySize, Slots, Bodies, Fits;
      ChildWordsFitExactly(cs, index);
      FitsAlone(MAP);
      FitsAlone(|cs|);
      assert [MAP] + [|cs|] == [MAP, |cs|];
      FitsJoined([MAP], [|cs|]);
      FitsJoined([MAP, |cs|], Slots(cs, index));
      FitsJoined([MAP, |cs|] + Slots(cs, index), Bodies(cs, index));
  }

  lemma {:induction false} ChildWordsFitExactly(cs: seq<Layout>, index: nat)
    ensures Fits(Slots(cs, index)) && Fits(Bodies(cs, index)) <==> ChildPointersFit(cs, index)
    decreases cs, 1
  {
    if cs != [] {
      var c, next := cs[0], index + BehindSize(cs[0]);
      WordsFitExactly(c, index);
      ChildFits(c, index);
      ChildWordsFitExactly(cs[1..], next);
      SlotsAre(cs, index);
      BodiesAre(cs, index);
      hide Encode, Size, BodySize, Slots, Bodies, Fits, Slot, Behind, BehindSize;
      FitsAlone(Slot(c, index));
      FitsJoined([Slot(c, index)], Slots(cs[1..], next));
      FitsJoined(Behind(c, index), Bodies(cs[1..], next));
    }
  }

  lemma ChildFits(c: Layout, index: nat)
    ensures Slot(c, index) < WORD && Fits(Behind(c, index))
            <==> (!c.IsInline() ==> index < WORD && Fits(Encode(c, index)))
  {
  }

  /** A pointer leads to at least two words, so it is smaller than the end by two. */
  lemma {:induction false} SmallPointersFit(l: Layout, at: nat)
    requires at + Size(l) <= WORD + 1
    ensures PointersFit(l, at)
    decreases l, 0
  {
    match l
    case Number =>
    case String =>
    case List(e) => SmallPointersFit(e, at + 1);
    case Map(cs) => SmallChildPointersFit(cs, at + 2 + |cs|);
  }

  lemma {:induction false} SmallChildPointersFit(cs: seq<Layout>, index: nat)
    requires index + BodySize(cs) <= WORD + 1
    ensures ChildPointersFit(cs, index)
    decreases cs, 1
  {
    if cs != [] {
      if !cs[0].IsInline() {
        SizeOfContainer(cs[0]);
        SmallPointersFit(cs[0], index);
      }
      SmallChildPointersFit(cs[1..], index + BehindSize(cs[0]));
    }
  }

  /** The static words are the dynamic ones exactly if counts and pointers fit into a word. */
  lemma WritersAgreeExactly(l: Layout)
    ensures Narrow(SchemaOf(l)) == SchemaOf(l) <==> PointersFit(l, 0)
  {
    WordsFitExactly(l, 0);
    FitsWhenNotTruncated(SchemaOf(l));
  }

  /** The writers agree on all layouts of n words exactly if n is at most 257. */
  lemma WritersAgreeExactlyUpTo257(n: nat)
    ensures n <= 257 <==> forall l: Layout :: Size(l) == n ==> Narrow(SchemaOf(l)) == SchemaOf(l)
  {
    hide Size, SchemaOf, Narrow, PointersFit;
    if n <= 257 {
      forall l: Layout | Size(l) == n ensures Narrow(SchemaOf(l)) == SchemaOf(l) {
        SmallPointersFit(l, 0);
        WritersAgreeExactly(l);
      }
    } else {
      SizeOfLists(n - 257);
      PointerIsTruncated(Lists(n - 257), 253);
    }
  }

  /** The pointer to the first child, behind 253 others, is truncated to 0. */
  lemma {:induction false} PointerIsTruncated(l: Layout, n: nat)
    requires l.List? && n + 3 == WORD
    ensures Size(First(l, n)) == 256 + Size(l) && Narrow(SchemaOf(First(l, n))) != SchemaOf(First(l, n))
  {
    var s := SchemaOf(First(l, n));
    FirstWords(l, n);
    hide NumberIds, Numbers, Encode;
    assert s[2] == n + 3;
    FitsWhenNotTruncated(s);
  }
}
