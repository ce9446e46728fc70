/**
 Schemas of structured buffers: the words a layout is written as, and a decoder that follows the
 pointers in them. A word is a type id, an element count or a pointer, and nothing marks which.
 */
module Schema {
  import opened Wrappers

  const NUMBER: nat := 252
  const STRING: nat := 253
  const LIST: nat := 254
  const MAP: nat := 255

  datatype Layout = Number | String | List(element: Layout) | Map(children: seq<Layout>) {
    /** Numbers and strings are stored in the slot of a map, all else behind a pointer. */
    predicate IsInline() {
      Number? || String?
    }
  }

  /** get_size. */
  function Size(l: Layout): (n: nat)
    ensures n > 0
    decreases l, 0
  {
    match l
    case Number => 1
    case String => 1
    case List(e) => 1 + Size(e)
    case Map(cs) => 2 + |cs| + BodySize(cs)
  }

  /** The words of a map behind its slots. */
  function BodySize(cs: seq<Layout>): nat
    decreases cs, 0
  {
    if cs == [] then 0 else BehindSize(cs[0]) + BodySize(cs[1..])
  }

  function BehindSize(c: Layout): nat
    decreases c, 1
  {
    if c.IsInline() then 0 else Size(c)
  }

  /** The words of a layout written at index at. */
  function Encode(l: Layout, at: nat): (s: seq<nat>)
    ensures |s| == Size(l)
    decreases l, 0
  {
    match l
    case Number => [NUMBER]
    case String => [STRING]
    case List(e) => [LIST] + Encode(e, at + 1)
    case Map(cs) => [MAP, |cs|] + Slots(cs, at + 2 + |cs|) + Bodies(cs, at + 2 + |cs|)
  }

  function Id(l: Layout): nat {
    match l
    case Number => NUMBER
    case String => STRING
    case List(_) => LIST
    case Map(_) => MAP
  }

  /** One word for each child: its id, or the index at which it is written. */
  function Slots(cs: seq<Layout>, index: nat): (s: seq<nat>)
    ensures |s| == |cs|
  {
    if cs == [] then [] else [Slot(cs[0], index)] + Slots(cs[1..], index + BehindSize(cs[0]))
  }

  function Slot(c: Layout, index: nat): nat {
    if c.IsInline() then Id(c) else index
  }

  function Bodies(cs: seq<Layout>, index: nat): (s: seq<nat>)
    ensures |s| == BodySize(cs)
    decreases cs, 0
  {
    if cs == [] then [] else Behind(cs[0], index) + Bodies(cs[1..], index + BehindSize(cs[0]))
  }

  function Behind(c: Layout, index: nat): (s: seq<nat>)
    ensures |s| == BehindSize(c)
    decreases c, 1
  {
    if c.IsInline() then [] else Encode(c, index)
  }

  // ----- one more child

  lemma {:induction false} OneMoreSlot(cs: seq<Layout>, c: Layout, index: nat)
    ensures BodySize(cs + [c]) == BodySize(cs) + BehindSize(c)
    ensures Slots(cs + [c], index) == Slots(cs, index) + [Slot(c, index + BodySize(cs))]
  {
    hide Size, Encode, BehindSize, Behind, Slot;
    if cs == [] {
      assert cs + [c] == [c];
    } else {
      assert (cs + [c])[1..] == cs[1..] + [c];
      OneMoreSlot(cs[1..], c, index + BehindSize(cs[0]));
    }
  }

  lemma {:induction false} OneMoreBody(cs: seq<Layout>, c: Layout, index: nat)
    ensures Bodies(cs + [c], index) == Bodies(cs, index) + Behind(c, index + BodySize(cs))
  {
    hide *;
    var all := cs + [c];
    BodiesAre(all, index);
    if cs == [] {
      assert all == [c] && all[1..] == [];
      NoBodies(index);
      NoBodies(index + BehindSize(c));
    } else {
      assert all[0] == cs[0] && all[1..] == cs[1..] + [c];
      BodiesAre(cs, index);
      OneMoreBody(cs[1..], c, index + BehindSize(cs[0]));
      ConcatAssociates(Behind(cs[0], index), Bodies(cs[1..], index + BehindSize(cs[0])),
                       Behind(c, index + BodySize(cs)));
    }
  }

  lemma NoBodies(index: nat)
    ensures BodySize([]) == 0 && Bodies([], index) == []
  {
  }

  lemma ConcatAssociates<T>(a: seq<T>, b: seq<T>, c: seq<T>)
    ensures (a + b) + c == a + (b + c)
  {
  }

  // ----- reading

  /** The layout at index p, if there is one; pointers must lead forward and stay within the schema. */
  function Decode(s: seq<nat>, p: nat): Option<Layout>
    decreases |s| - p, 0
  {
    if p >= |s| then None
    else if s[p] == NUMBER then Some(Number)
    else if s[p] == STRING then Some(String)
    else if s[p] == LIST then
      match Decode(s, p + 1)
      case Some(e) => Some(List(e))
      case None => None
    else if s[p] == MAP && p + 1 < |s| && p + 2 + s[p + 1] <= |s| then
      match DecodeSlots(s, p, p + 2, s[p + 1])
      case Some(cs) => Some(Map(cs))
      case None => None
    else None
  }

  function DecodeSlots(s: seq<nat>, p: nat, slot: nat, n: nat): Option<seq<Layout>>
    requires p < slot && slot + n <= |s|
    decreases |s| - p, 0, n
  {
    if n == 0 then Some([])
    else
      match (DecodeSlot(s, p, slot), DecodeSlots(s, p, slot + 1, n - 1))
      case (Some(c), Some(cs)) => Some([c] + cs)
      case _ => None
  }

  function DecodeSlot(s: seq<nat>, p: nat, slot: nat): Option<Layout>
    requires p < slot < |s|
    decreases |s| - p, 0, 0
  {
    if s[slot] == NUMBER then Some(Number)
    else if s[slot] == STRING then Some(String)
    else if p < s[slot] < |s| then Decode(s, s[slot])
    else None
  }

  // ----- which schemas can be read back

  /** No pointer of the layout written at index at is the id of a number or a string. */
  predicate Unambiguous(l: Layout, at: nat)
    decreases l
  {
    match l
    case Number => true
    case String => true
    case List(e) => Unambiguous(e, at + 1)
    case Map(cs) => UnambiguousAll(cs, at + 2 + |cs|)
  }

  predicate UnambiguousAll(cs: seq<Layout>, index: nat)
    decreases cs
  {
    cs != [] ==>
      && (!cs[0].IsInline() ==> index != NUMBER && index != STRING && Unambiguous(cs[0], index))
      && UnambiguousAll(cs[1..], index + BehindSize(cs[0]))
  }

  /** The schema s holds the layout at index at. */
  ghost predicate Holds(s: seq<nat>, l: Layout, at: nat) {
    at + Size(l) <= |s| && s[at..at + Size(l)] == Encode(l, at)
  }

  ghost predicate HoldsChildren(s: seq<nat>, slot: nat, cs: seq<Layout>, index: nat) {
    && slot + |cs| <= index && index + BodySize(cs) <= |s|
    && s[slot..slot + |cs|] == Slots(cs, index)
    && s[index..index + BodySize(cs)] == Bodies(cs, index)
  }

  /** A layout is read back exactly when none of its pointers looks like the id of an inline element. */
  lemma {:induction false} DecodesExactlyUnambiguous(s: seq<nat>, l: Layout, at: nat)
    requires Holds(s, l, at)
    ensures Decode(s, at) == Some(l) <==> Unambiguous(l, at)
    decreases l, 0
  {
    hide Slots, Bodies, DecodeSlots, UnambiguousAll, BodySize, HoldsChildren;
    var w := s[at..at + Size(l)];
    assert s[at] == w[0];
    match l
    case Number =>
    case String =>
    case List(e) =>
      assert s[at + 1..at + 1 + Size(e)] == w[1..];
      DecodesExactlyUnambiguous(s, e, at + 1);
    case Map(cs) =>
      assert s[at + 1] == w[1];
      MapHoldsChildren(s, cs, at);
      SlotsDecodeExactly(s, at, at + 2, cs, at + 2 + |cs|);
  }

  lemma EncodeMap(cs: seq<Layout>, at: nat)
    ensures Encode(Map(cs), at) == [MAP, |cs|] + Slots(cs, at + 2 + |cs|) + Bodies(cs, at + 2 + |cs|)
    ensures Size(Map(cs)) == 2 + |cs| + BodySize(cs)
  {
  }

  lemma {:induction false} MapWord(cs: seq<Layout>, at: nat, i: nat)
    requires i < Size(Map(cs))
    ensures Size(Map(cs)) == 2 + |cs| + BodySize(cs)
    ensures Encode(Map(cs), at)[i] == if i == 0 then MAP else if i == 1 then |cs|
                                      else if i < 2 + |cs| then Slots(cs, at + 2 + |cs|)[i - 2]
                                      else Bodies(cs, at + 2 + |cs|)[i - 2 - |cs|]
    ensures PointerAt(Map(cs), i)
            <==> i >= 2 && if i < 2 + |cs| then !cs[i - 2].IsInline() else BodyPointerAt(cs, i - 2 - |cs|)
  {
    EncodeMap(cs, at);
  }

  /** The bodies start with the first child that is not inline. */
  lemma SomeBody(cs: seq<Layout>)
    requires BodySize(cs) > 0
    ensures cs != []
  {
  }

  lemma {:induction false} FirstBodyWord(cs: seq<Layout>, index: nat, i: nat)
    requires cs != [] && i < BehindSize(cs[0])
    ensures i < BodySize(cs) && Bodies(cs, index)[i] == Encode(cs[0], index)[i]
    ensures BehindSize(cs[0]) == Size(cs[0]) && (BodyPointerAt(cs, i) <==> PointerAt(cs[0], i))
  {
  }

  lemma BehindIs(c: Layout, index: nat)
    requires BehindSize(c) > 0
    ensures !c.IsInline() && Behind(c, index) == Encode(c, index)
  {
  }

  lemma {:induction false} LaterBodyWord(cs: seq<Layout>, index: nat, i: nat)
    requires cs != [] && BehindSize(cs[0]) <= i < BodySize(cs)
    ensures BodySize(cs) == BehindSize(cs[0]) + BodySize(cs[1..])
    ensures Bodies(cs, index)[i] == Bodies(cs[1..], index + BehindSize(cs[0]))[i - BehindSize(cs[0])]
    ensures BodyPointerAt(cs, i) <==> BodyPointerAt(cs[1..], i - BehindSize(cs[0]))
  {
  }

  lemma {:induction false} MapHoldsChildren(s: seq<nat>, cs: seq<Layout>, at: nat)
    requires Holds(s, Map(cs), at)
    ensures HoldsChildren(s, at + 2, cs, at + 2 + |cs|)
  {
    hide Encode, Slots, Bodies, Size, BodySize;
    var n, m := |cs|, BodySize(cs);
    var w := s[at..at + Size(Map(cs))];
    var slots, bodies := Slots(cs, at + 2 + n), Bodies(cs, at + 2 + n);
    EncodeMap(cs, at);
    assert w[2..2 + n] == slots && w[2 + n..2 + n + m] == bodies;
    SubSlice(s, at, at + 2 + n + m, 2, 2 + n);
    SubSlice(s, at, at + 2 + n + m, 2 + n, 2 + n + m);
  }

  lemma SubSlice(s: seq<nat>, a: nat, b: nat, i: nat, j: nat)
    requires a <= b <= |s| && i <= j <= b - a
    ensures s[a..b][i..j] == s[a + i..a + j]
  {
    var x, y := s[a..b][i..j], s[a + i..a + j];
    assert |x| == |y|;
    forall k | 0 <= k < |x| ensures x[k] == y[k] {
      assert x[k] == s[a..b][i + k];
    }
  }

  lemma {:induction false} SlotsDecodeExactly(s: seq<nat>, p: nat, slot: nat, cs: seq<Layout>, index: nat)
    requires p < slot && HoldsChildren(s, slot, cs, index)
    ensures DecodeSlots(s, p, slot, |cs|) == Some(cs) <==> UnambiguousAll(cs, index)
    decreases cs, 1
  {
    hide *;
    ChildrenAre(s, slot, cs, index);
    if cs == [] {
      NothingToDecode(s, p, slot, index);
    } else {
      FirstChild(s, slot, cs, index);
      FirstChildIsBehind(s, slot, cs, index);
      SlotsDecodeExactly(s, p, slot + 1, cs[1..], index + BehindSize(cs[0]));
      if !cs[0].IsInline() {
        DecodesExactlyUnambiguous(s, cs[0], index);
      }
      SlotsDecodeCons(s, p, slot, |cs|);
      UnambiguousCons(cs, index);
      SlotDecodes(s, p, slot, cs[0], index);
      ConsIsSome(DecodeSlot(s, p, slot), DecodeSlots(s, p, slot + 1, |cs| - 1), cs);
    }
  }

  lemma NothingToDecode(s: seq<nat>, p: nat, slot: nat, index: nat)
    requires p < slot <= |s|
    ensures DecodeSlots(s, p, slot, 0) == Some([]) && UnambiguousAll([], index)
  {
  }

  lemma FirstChildIsBehind(s: seq<nat>, slot: nat, cs: seq<Layout>, index: nat)
    requires cs != [] && HoldsChildren(s, slot, cs, index)
    ensures slot < index && (!cs[0].IsInline() ==> index < |s|)
  {
    hide Encode, Behind, Bodies, Slots;
    FirstChild(s, slot, cs, index);
  }

  lemma SlotsDecodeCons(s: seq<nat>, p: nat, slot: nat, n: nat)
    requires p < slot && n > 0 && slot + n <= |s|
    ensures DecodeSlots(s, p, slot, n)
            == match (DecodeSlot(s, p, slot), DecodeSlots(s, p, slot + 1, n - 1))
               case (Some(c), Some(cs)) => Some([c] + cs)
               case _ => None
  {
  }

  lemma UnambiguousCons(cs: seq<Layout>, index: nat)
    requires cs != []
    ensures UnambiguousAll(cs, index)
            <==> && (!cs[0].IsInline() ==> index != NUMBER && index != STRING && Unambiguous(cs[0], index))
                 && UnambiguousAll(cs[1..], index + BehindSize(cs[0]))
  {
  }

  /** A slot is read as its child, unless it is a pointer that is the id of a number or a string. */
  lemma SlotDecodes(s: seq<nat>, p: nat, slot: nat, c: Layout, index: nat)
    requires p < slot < index && slot < |s| && s[slot] == Slot(c, index)
    requires !c.IsInline() ==> index < |s| && (Decode(s, index) == Some(c) <==> Unambiguous(c, index))
    ensures DecodeSlot(s, p, slot) == Some(c)
            <==> (!c.IsInline() ==> index != NUMBER && index != STRING && Unambiguous(c, index))
  {
    hide Decode, Unambiguous;
  }

  lemma ConsIsSome(c: Option<Layout>, rest: Option<seq<Layout>>, cs: seq<Layout>)
    requires cs != []
    ensures (c.Some? && rest.Some? && [c.value] + rest.value == cs) <==> c == Some(cs[0]) && rest == Some(cs[1..])
  {
    assert cs == [cs[0]] + cs[1..];
    if c.Some? && rest.Some? && [c.value] + rest.value == cs {
      assert cs[0] == c.value && cs[1..] == rest.value;
    }
  }

  lemma {:induction false} FirstChild(s: seq<nat>, slot: nat, cs: seq<Layout>, index: nat)
    requires cs != [] && HoldsChildren(s, slot, cs, index)
    ensures slot < |s| && s[slot] == Slot(cs[0], index)
    ensures !cs[0].IsInline() ==> Holds(s, cs[0], index)
    ensures HoldsChildren(s, slot + 1, cs[1..], index + BehindSize(cs[0]))
  {
    hide *;
    var n := BehindSize(cs[0]);
    ChildrenAre(s, slot, cs, index);
    BodiesAre(cs, index);
    FirstSlot(s, slot, cs, index);
    FirstBody(s, cs, index);
    ChildrenAre(s, slot + 1, cs[1..], index + n);
  }

  lemma FirstSlot(s: seq<nat>, slot: nat, cs: seq<Layout>, index: nat)
    requires cs != [] && slot + |cs| <= |s| && s[slot..slot + |cs|] == Slots(cs, index)
    ensures s[slot] == Slot(cs[0], index)
    ensures s[slot + 1..slot + 1 + |cs[1..]|] == Slots(cs[1..], index + BehindSize(cs[0]))
  {
    hide *;
    SlotsAre(cs, index);
    SplitSlice(s, slot, slot + |cs|, [Slot(cs[0], index)], Slots(cs[1..], index + BehindSize(cs[0])));
    assert s[slot..slot + 1][0] == s[slot];
  }

  lemma FirstBody(s: seq<nat>, cs: seq<Layout>, index: nat)
    requires cs != [] && index + BodySize(cs) <= |s| && s[index..index + BodySize(cs)] == Bodies(cs, index)
    ensures !cs[0].IsInline() ==> Holds(s, cs[0], index)
    ensures BodySize(cs) == BehindSize(cs[0]) + BodySize(cs[1..])
    ensures var n := BehindSize(cs[0]); s[index + n..index + n + BodySize(cs[1..])] == Bodies(cs[1..], index + n)
  {
    hide *;
    BodiesAre(cs, index);
    BehindOfContainer(cs[0], index);
    SplitSlice(s, index, index + BodySize(cs), Behind(cs[0], index), Bodies(cs[1..], index + BehindSize(cs[0])));
    HoldsParts(s, cs[0], index);
  }

  lemma ChildrenAre(s: seq<nat>, slot: nat, cs: seq<Layout>, index: nat)
    ensures HoldsChildren(s, slot, cs, index)
            <==> && slot + |cs| <= index && index + BodySize(cs) <= |s|
                 && s[slot..slot + |cs|] == Slots(cs, index)
                 && s[index..index + BodySize(cs)] == Bodies(cs, index)
  {
  }

  lemma HoldsParts(s: seq<nat>, l: Layout, at: nat)
    ensures Holds(s, l, at) <==> at + Size(l) <= |s| && s[at..at + Size(l)] == Encode(l, at)
  {
  }

  lemma SplitSlice(s: seq<nat>, a: nat, b: nat, x: seq<nat>, y: seq<nat>)
    requires a <= b <= |s| && s[a..b] == x + y
    ensures a + |x| <= b && s[a..a + |x|] == x && s[a + |x|..b] == y
  {
    assert b - a == |x| + |y|;
    SubSlice(s, a, b, 0, |x|);
    SubSlice(s, a, b, |x|, b - a);
    assert (x + y)[..|x|] == x && (x + y)[|x|..] == y;
  }

  lemma BehindOfContainer(c: Layout, index: nat)
    ensures !c.IsInline() ==> BehindSize(c) == Size(c) && Behind(c, index) == Encode(c, index)
  {
  }

  /** Pointers lie within the layout, so small layouts cannot be misread. */
  lemma {:induction false} SmallIsUnambiguous(l: Layout, at: nat)
    requires at + Size(l) <= NUMBER + 1
    ensures Unambiguous(l, at)
    decreases l, 0
  {
    match l
    case Number =>
    case String =>
    case List(e) => SmallIsUnambiguous(e, at + 1);
    case Map(cs) => SmallChildrenAreUnambiguous(cs, at + 2 + |cs|);
  }

  lemma SizeOfContainer(l: Layout)
    requires !l.IsInline()
    ensures Size(l) > 1
  {
  }

  lemma {:induction false} SmallChildrenAreUnambiguous(cs: seq<Layout>, index: nat)
    requires index + BodySize(cs) <= NUMBER + 1
    ensures UnambiguousAll(cs, index)
    decreases cs, 1
  {
    if cs != [] {
      if !cs[0].IsInline() {
        SmallIsUnambiguous(cs[0], index);
        SizeOfContainer(cs[0]);
      }
      SmallChildrenAreUnambiguous(cs[1..], index + BehindSize(cs[0]));
    }
  }

  function SchemaOf(l: Layout): seq<nat> {
    Encode(l, 0)
  }

  lemma InlineFirst(c: Layout, cs: seq<Layout>, index: nat)
    requires c.IsInline()
    ensures Slots([c] + cs, index) == [Id(c)] + Slots(cs, index) && Bodies([c] + cs, index) == Bodies(cs, index)
  {
    assert ([c] + cs)[1..] == cs;
  }

  lemma BodyFirst(c: Layout, cs: seq<Layout>, index: nat)
    requires !c.IsInline()
    ensures Slots([c] + cs, index) == [index] + Slots(cs, index + Size(c))
    ensures Bodies([c] + cs, index) == Encode(c, index) + Bodies(cs, index + Size(c))
  {
    assert ([c] + cs)[1..] == cs;
  }

  lemma NoChildren(index: nat)
    ensures Slots([], index) == [] && Bodies([], index) == []
  {
  }

  lemma WordsAre(l: Layout, at: nat)
    ensures l.Number? ==> Encode(l, at) == [NUMBER]
    ensures l.String? ==> Encode(l, at) == [STRING]
    ensures l.List? ==> Encode(l, at) == [LIST] + Encode(l.element, at + 1)
    ensures l.Map? ==> var index := at + 2 + |l.children|;
                       Encode(l, at) == [MAP, |l.children|] + Slots(l.children, index) + Bodies(l.children, index)
    ensures |Encode(l, at)| == Size(l) && (l.IsInline() <==> l.Number? || l.String?)
    ensures l.Number? ==> Id(l) == NUMBER
    ensures l.String? ==> Id(l) == STRING
  {
  }

  /** The words of a map of a number and a string, in a list, and of a list of strings. */
  lemma TestBodies()
    ensures Encode(List(Map([Number] + ([String] + []))), 6) == [LIST, MAP, 2, NUMBER, STRING]
    ensures Encode(List(String), 11) == [LIST, STRING]
  {
    hide *;
    var cs := [Number] + ([String] + []);
    WordsAre(List(Map(cs)), 6);
    WordsAre(Map(cs), 7);
    WordsAre(Number, 0);
    WordsAre(String, 0);
    InlineFirst(Number, [String] + [], 11);
    InlineFirst(String, [], 11);
    NoChildren(11);
    WordsAre(List(String), 11);
    WordsAre(String, 12);
  }

  lemma TestMap(a: Layout, b: Layout)
    requires a == List(Map([Number] + ([String] + []))) && b == List(String)
    ensures var cs := [a] + ([String] + ([b] + []));
            Slots(cs, 6) == [6, STRING, 11] && Bodies(cs, 6) == [LIST, MAP, 2, NUMBER, STRING, LIST, STRING]
  {
    hide *;
    TestBodies();
    WordsAre(a, 6);
    WordsAre(b, 11);
    WordsAre(String, 0);
    BodyFirst(a, [String] + ([b] + []), 6);
    InlineFirst(String, [b] + [], 11);
    BodyFirst(b, [], 11);
    NoChildren(11 + Size(b));
  }

  /** The layout whose schema the original checks word by word. */
  lemma SchemaOfTheTest()
    ensures SchemaOf(List(Map([List(Map([Number, String])), String, List(String)])))
            == [LIST, MAP, 3, 6, STRING, 11, LIST, MAP, 2, NUMBER, STRING, LIST, STRING]
    ensures NUMBER < STRING < LIST < MAP == 0xff && NUMBER == 0xff - 3
  {
    hide Size, Encode, Slots, Bodies, Id, Layout.IsInline, BodySize, Slot, Behind, BehindSize;
    var a, b := List(Map([Number] + ([String] + []))), List(String);
    var cs := [a] + ([String] + ([b] + []));
    assert [Number] + ([String] + []) == [Number, String];
    assert [List(Map([Number, String])), String, List(String)] == cs;
    TestMap(a, b);
    WordsAre(List(Map(cs)), 0);
    WordsAre(Map(cs), 1);
  }

  lemma {:induction false} SchemaHolds(l: Layout)
    ensures Holds(SchemaOf(l), l, 0)
  {
    assert SchemaOf(l)[0..Size(l)] == SchemaOf(l);
  }

  /** Schemas of up to 253 words are read back. */
  lemma SmallSchemaDecodes(l: Layout)
    requires Size(l) <= 253
    ensures Decode(SchemaOf(l), 0) == Some(l)
  {
    SmallIsUnambiguous(l, 0);
    SchemaHolds(l);
    DecodesExactlyUnambiguous(SchemaOf(l), l, 0);
  }

  // ----- pointers

  /** Word i of the layout is a pointer. */
  predicate PointerAt(l: Layout, i: nat)
    requires i < Size(l)
    decreases l
  {
    match l
    case Number => false
    case String => false
    case List(e) => i > 0 && PointerAt(e, i - 1)
    case Map(cs) =>
      if i < 2 then false
      else if i < 2 + |cs| then !cs[i - 2].IsInline()
      else BodyPointerAt(cs, i - 2 - |cs|)
  }

  predicate BodyPointerAt(cs: seq<Layout>, i: nat)
    requires i < BodySize(cs)
    decreases cs
  {
    if i < BehindSize(cs[0]) then PointerAt(cs[0], i) else BodyPointerAt(cs[1..], i - BehindSize(cs[0]))
  }

  lemma {:induction false} ListWord(e: Layout, at: nat, i: nat)
    requires i < Size(List(e))
    ensures Size(List(e)) == 1 + Size(e)
    ensures Encode(List(e), at)[i] == if i == 0 then LIST else Encode(e, at + 1)[i - 1]
    ensures PointerAt(List(e), i) <==> i > 0 && PointerAt(e, i - 1)
  {
  }

  /** A layout written k words further on has the same words, except that all pointers are k larger. */
  lemma {:induction false} NestedSchemaIsShifted(l: Layout, at: nat, k: nat, i: nat)
    requires i < Size(l)
    ensures Encode(l, at + k)[i] == Encode(l, at)[i] + if PointerAt(l, i) then k else 0
    decreases l, 0
  {
    hide *;
    match l
    case Number => InlineWord(l, at, i); InlineWord(l, at + k, i);
    case String => InlineWord(l, at, i); InlineWord(l, at + k, i);
    case List(e) =>
      ListWord(e, at, i);
      ListWord(e, at + k, i);
      if i > 0 {
        NestedSchemaIsShifted(e, at + 1, k, i - 1);
      }
    case Map(cs) =>
      MapWord(cs, at, i);
      MapWord(cs, at + k, i);
      if 2 <= i < 2 + |cs| {
        SlotIsShifted(cs, at + 2 + |cs|, k, i - 2);
      } else if i >= 2 + |cs| {
        BodyIsShifted(cs, at + 2 + |cs|, k, i - 2 - |cs|);
      }
  }

  lemma InlineWord(l: Layout, at: nat, i: nat)
    requires (l.Number? || l.String?) && i < Size(l)
    ensures Encode(l, at)[i] == Id(l) && !PointerAt(l, i)
  {
  }

  lemma SlotShifts(c: Layout, index: nat, k: nat)
    ensures Slot(c, index + k) == Slot(c, index) + if c.IsInline() then 0 else k
  {
  }

  lemma {:induction false} SlotIsShifted(cs: seq<Layout>, index: nat, k: nat, i: nat)
    requires i < |cs|
    ensures Slots(cs, index + k)[i] == Slots(cs, index)[i] + if cs[i].IsInline() then 0 else k
  {
    hide *;
    SlotsAre(cs, index);
    SlotsAre(cs, index + k);
    if i == 0 {
      SlotShifts(cs[0], index, k);
    } else {
      assert index + k + BehindSize(cs[0]) == index + BehindSize(cs[0]) + k;
      SlotIsShifted(cs[1..], index + BehindSize(cs[0]), k, i - 1);
    }
  }

  lemma {:induction false} BodyIsShifted(cs: seq<Layout>, index: nat, k: nat, i: nat)
    requires i < BodySize(cs)
    ensures Bodies(cs, index + k)[i] == Bodies(cs, index)[i] + if BodyPointerAt(cs, i) then k else 0
    decreases cs, 1
  {
    hide *;
    SomeBody(cs);
    var n := BehindSize(cs[0]);
    if i < n {
      FirstBodyWord(cs, index, i);
      FirstBodyWord(cs, index + k, i);
      NestedSchemaIsShifted(cs[0], index, k, i);
    } else {
      LaterBodyWord(cs, index, i);
      LaterBodyWord(cs, index + k, i);
      assert index + k + n == index + n + k;
      BodyIsShifted(cs[1..], index + n, k, i - n);
    }
  }

  /** The word with which a list or a map starts. */
  predicate IsContainer(word: nat) {
    word == LIST || word == MAP
  }

  /** Word i leads forward within these words, which start at index at, to a list or a map. */
  ghost predicate LeadsForward(words: seq<nat>, at: nat, i: nat) {
    i < |words| && at + i < words[i] < at + |words| && IsContainer(words[words[i] - at])
  }

  /** Pointers lead forward, stay within the layout, and lead to a list or a map. */
  lemma {:induction false} PointersLeadForward(l: Layout, at: nat, i: nat)
    requires i < Size(l) && PointerAt(l, i)
    ensures LeadsForward(Encode(l, at), at, i)
    decreases l, 0
  {
    hide *;
    if l.List? {
      ListWord(l.element, at, i);
      EncodeList(l.element, at);
      PointersLeadForward(l.element, at + 1, i - 1);
      LeadsInSuffix([LIST], Encode(l.element, at + 1), at, i - 1);
    } else if l.Map? {
      MapPointersLeadForward(l.children, at, i);
    } else {
      InlineWord(l, at, i);
    }
  }

  lemma EncodeList(e: Layout, at: nat)
    ensures Encode(List(e), at) == [LIST] + Encode(e, at + 1)
  {
  }

  lemma {:induction false} MapPointersLeadForward(cs: seq<Layout>, at: nat, i: nat)
    requires i < Size(Map(cs)) && PointerAt(Map(cs), i)
    ensures LeadsForward(Encode(Map(cs), at), at, i)
    decreases cs, 2
  {
    hide *;
    var index := at + 2 + |cs|;
    var front := [MAP, |cs|] + Slots(cs, index);
    MapWord(cs, at, i);
    EncodeMap(cs, at);
    if i < 2 + |cs| {
      SlotLeadsForward(cs, index, i - 2);
      assert front[i] == Slots(cs, index)[i - 2];
      LeadsFromFront(front, Bodies(cs, index), at, i);
    } else {
      BodyPointersLeadForward(cs, index, i - 2 - |cs|);
      LeadsInSuffix(front, Bodies(cs, index), at, i - 2 - |cs|);
    }
  }

  lemma LeadsInSuffix(front: seq<nat>, words: seq<nat>, at: nat, i: nat)
    requires LeadsForward(words, at + |front|, i)
    ensures LeadsForward(front + words, at, |front| + i)
  {
  }

  lemma LeadsInPrefix(words: seq<nat>, more: seq<nat>, at: nat, i: nat)
    requires LeadsForward(words, at, i)
    ensures LeadsForward(words + more, at, i)
  {
  }

  lemma LeadsFromFront(front: seq<nat>, words: seq<nat>, at: nat, i: nat)
    requires i < |front| && LeadsInto(front[i], words, at + |front|)
    ensures LeadsForward(front + words, at, i)
  {
  }

  /** The pointer in a slot leads to its child behind the slots. */
  lemma {:induction false} SlotLeadsForward(cs: seq<Layout>, index: nat, i: nat)
    requires i < |cs| && !cs[i].IsInline()
    ensures LeadsInto(Slots(cs, index)[i], Bodies(cs, index), index)
  {
    if i == 0 {
      StartsContainer(cs, index);
    } else {
      hide *;
      SlotLeadsForward(cs[1..], index + BehindSize(cs[0]), i - 1);
      LaterSlotLeads(cs, index, i);
    }
  }

  lemma LaterSlotLeads(cs: seq<Layout>, index: nat, i: nat)
    requires 0 < i < |cs|
    requires LeadsInto(Slots(cs[1..], index + BehindSize(cs[0]))[i - 1], Bodies(cs[1..], index + BehindSize(cs[0])),
                       index + BehindSize(cs[0]))
    ensures LeadsInto(Slots(cs, index)[i], Bodies(cs, index), index)
  {
    hide *;
    var n := BehindSize(cs[0]);
    SlotsAre(cs, index);
    BodiesAre(cs, index);
    LeadsPast(Slots(cs[1..], index + n)[i - 1], Behind(cs[0], index), Bodies(cs[1..], index + n), index);
  }

  ghost predicate LeadsInto(word: nat, words: seq<nat>, index: nat) {
    index <= word < index + |words| && IsContainer(words[word - index])
  }

  lemma LeadsPast(word: nat, front: seq<nat>, words: seq<nat>, index: nat)
    requires LeadsInto(word, words, index + |front|)
    ensures LeadsInto(word, front + words, index)
  {
  }

  lemma StartsContainer(cs: seq<Layout>, index: nat)
    requires cs != [] && !cs[0].IsInline()
    ensures LeadsInto(Slots(cs, index)[0], Bodies(cs, index), index)
  {
    assert IsContainer(Encode(cs[0], index)[0]);
  }

  lemma SlotsAre(cs: seq<Layout>, index: nat)
    requires cs != []
    ensures Slots(cs, index) == [Slot(cs[0], index)] + Slots(cs[1..], index + BehindSize(cs[0]))
  {
  }

  lemma BodiesAre(cs: seq<Layout>, index: nat)
    requires cs != []
    ensures Bodies(cs, index) == Behind(cs[0], index) + Bodies(cs[1..], index + BehindSize(cs[0]))
    ensures BodySize(cs) == BehindSize(cs[0]) + BodySize(cs[1..])
  {
  }

  lemma {:induction false} BodyPointersLeadForward(cs: seq<Layout>, index: nat, i: nat)
    requires i < BodySize(cs) && BodyPointerAt(cs, i)
    ensures LeadsForward(Bodies(cs, index), index, i)
    decreases cs, 1
  {
    hide *;
    SomeBody(cs);
    var n := BehindSize(cs[0]);
    if i < n {
      FirstBodyWord(cs, index, i);
      PointersLeadForward(cs[0], index, i);
      FirstBodyLeads(cs, index, i);
    } else {
      LaterBodyWord(cs, index, i);
      BodyPointersLeadForward(cs[1..], index + n, i - n);
      LaterBodyLeads(cs, index, i);
    }
  }

  lemma FirstBodyLeads(cs: seq<Layout>, index: nat, i: nat)
    requires cs != [] && i < BehindSize(cs[0]) && LeadsForward(Encode(cs[0], index), index, i)
    ensures LeadsForward(Bodies(cs, index), index, i)
  {
    hide *;
    BehindIs(cs[0], index);
    BodiesAre(cs, index);
    LeadsInPrefix(Behind(cs[0], index), Bodies(cs[1..], index + BehindSize(cs[0])), index, i);
  }

  lemma LaterBodyLeads(cs: seq<Layout>, index: nat, i: nat)
    requires cs != [] && i >= BehindSize(cs[0])
    requires LeadsForward(Bodies(cs[1..], index + BehindSize(cs[0])), index + BehindSize(cs[0]), i - BehindSize(cs[0]))
    ensures LeadsForward(Bodies(cs, index), index, i)
  {
    hide *;
    BodiesAre(cs, index);
    LeadsInSuffix(Behind(cs[0], index), Bodies(cs[1..], index + BehindSize(cs[0])), index, i - BehindSize(cs[0]));
  }
}
