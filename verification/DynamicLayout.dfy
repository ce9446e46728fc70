/**
 Dynamic elements, the writer that appends their schemas to a vector, and the check by which a list
 decides that its entries have the same layout.
 */
module DynamicLayout {
  import opened Schema
  import opened SchemaTwins

  /** A value together with the elements it contains. */
  datatype Element =
    | NumberElement(number: real)
    | StringElement(text: string)
    | ListElement(list: seq<Element>)
    | MapElement(entries: seq<Entry>)
  {
    predicate IsScalar() {
      NumberElement? || StringElement?
    }

    /** Neither lists nor maps can be constructed empty. */
    predicate Built() {
      match this
      case NumberElement(_) => true
      case StringElement(_) => true
      case ListElement(es) => es != [] && forall i :: 0 <= i < |es| ==> es[i].Built()
      case MapElement(es) => es != [] && forall i :: 0 <= i < |es| ==> es[i].value.Built()
    }

    /** A list has the layout of its first entry; the keys of a map are not part of its layout. */
    function LayoutOf(): Layout
      requires Built()
      decreases this
    {
      match this
      case NumberElement(_) => Number
      case StringElement(_) => String
      case ListElement(es) => List(es[0].LayoutOf())
      case MapElement(es) => Map(Layouts(es))
    }

    /** m_schema: lists and maps hold their schema; the constructors of numbers and strings leave it empty. */
    function SchemaField(): seq<nat>
      requires Built()
    {
      if IsScalar() then [] else SchemaOf(LayoutOf())
    }
  }

  datatype Entry = Entry(key: string, value: Element)

  function Layouts(es: seq<Entry>): (cs: seq<Layout>)
    requires forall i :: 0 <= i < |es| ==> es[i].value.Built()
    ensures |cs| == |es|
    decreases es
  {
    if es == [] then [] else [es[0].value.LayoutOf()] + Layouts(es[1..])
  }

  lemma {:induction false} LayoutAt(es: seq<Entry>, i: nat)
    requires i < |es| && forall i :: 0 <= i < |es| ==> es[i].value.Built()
    ensures Layouts(es)[i] == es[i].value.LayoutOf()
  {
    if i > 0 {
      LayoutAt(es[1..], i - 1);
    }
  }

  // ----- the writer

  /** A map that is being written: the slots of the first i children are set and their bodies appended. */
  ghost predicate PartlyWritten(words: seq<nat>, front: seq<nat>, unset: seq<nat>, cs: seq<Layout>, i: nat) {
    && i <= |cs| == |unset|
    && words == front + Slots(cs[..i], |front| + |cs|) + unset[i..] + Bodies(cs[..i], |front| + |cs|)
  }

  lemma NothingWritten(front: seq<nat>, unset: seq<nat>, cs: seq<Layout>)
    requires |unset| == |cs|
    ensures PartlyWritten(front + unset, front, unset, cs, 0)
  {
    assert cs[..0] == [] && unset[0..] == unset;
  }

  lemma ChildAppended(words: seq<nat>, front: seq<nat>, unset: seq<nat>, cs: seq<Layout>, i: nat)
    requires PartlyWritten(words, front, unset, cs, i) && i < |cs| == |unset|
    ensures |front| + i < |words|
    ensures PartlyWritten(words[|front| + i := Slot(cs[i], |words|)] + Behind(cs[i], |words|), front, unset, cs, i + 1)
  {
    hide *;
    var index := |front| + |cs|;
    var slots, bodies := Slots(cs[..i], index), Bodies(cs[..i], index);
    PartsOf(words, front, unset, cs, i);
    var w, behind := Slot(cs[i], |words|), Behind(cs[i], |words|);
    assert cs[..i + 1] == cs[..i] + [cs[i]];
    OneMoreSlot(cs[..i], cs[i], index);
    OneMoreBody(cs[..i], cs[i], index);
    SlotSet(words, front, slots, unset[i..], bodies, w);
    assert unset[i..][1..] == unset[i + 1..];
    assert front + (slots + [w]) + unset[i + 1..] + bodies + behind
        == front + (slots + [w]) + unset[i + 1..] + (bodies + behind);
    PartsOf(words[|front| + i := w] + behind, front, unset, cs, i + 1);
  }

  lemma PartsOf(words: seq<nat>, front: seq<nat>, unset: seq<nat>, cs: seq<Layout>, i: nat)
    requires i <= |cs| == |unset|
    ensures PartlyWritten(words, front, unset, cs, i)
            <==> words == front + Slots(cs[..i], |front| + |cs|) + unset[i..] + Bodies(cs[..i], |front| + |cs|)
    ensures |Bodies(cs[..i], |front| + |cs|)| == BodySize(cs[..i])
  {
  }

  lemma SlotSet(words: seq<nat>, front: seq<nat>, slots: seq<nat>, unset: seq<nat>, bodies: seq<nat>, w: nat)
    requires words == front + slots + unset + bodies && unset != []
    ensures words[|front| + |slots| := w] == front + (slots + [w]) + unset[1..] + bodies
  {
    var t := front + (slots + [w]) + unset[1..] + bodies;
    assert |t| == |words|;
    forall k | 0 <= k < |t| ensures words[|front| + |slots| := w][k] == t[k] {
    }
  }

  lemma JoinedUp(a: seq<nat>, b: seq<nat>, c: seq<nat>, d: seq<nat>)
    ensures (a + b) + c + d == a + (b + c + d)
  {
  }

  lemma AllAppended(words: seq<nat>, before: seq<nat>, unset: seq<nat>, cs: seq<Layout>)
    requires |unset| == |cs| && PartlyWritten(words, before + [MAP, |cs|], unset, cs, |cs|)
    ensures words == before + Encode(Map(cs), |before|)
  {
    hide *;
    var index := |before| + 2 + |cs|;
    EncodeMap(cs, |before|);
    NoSlotUnset(words, before + [MAP, |cs|], unset, cs);
    JoinedUp(before, [MAP, |cs|], Slots(cs, index), Bodies(cs, index));
  }

  lemma NoSlotUnset(words: seq<nat>, front: seq<nat>, unset: seq<nat>, cs: seq<Layout>)
    requires |unset| == |cs| && PartlyWritten(words, front, unset, cs, |cs|)
    ensures words == front + Slots(cs, |front| + |cs|) + Bodies(cs, |front| + |cs|)
  {
    hide *;
    PartsOf(words, front, unset, cs, |cs|);
    assert cs[..|cs|] == cs && unset[|cs|..] == [];
    assert front + Slots(cs, |front| + |cs|) + [] == front + Slots(cs, |front| + |cs|);
  }

  lemma ScalarSchema(obj: Element, at: nat)
    requires obj.NumberElement? || obj.StringElement?
    ensures obj.Built() && Encode(obj.LayoutOf(), at) == [if obj.NumberElement? then NUMBER else STRING]
  {
  }

  lemma ListSchema(obj: Element, at: nat)
    requires obj.ListElement? && obj.Built()
    ensures obj.list != [] && obj.list[0].Built()
    ensures Encode(obj.LayoutOf(), at) == [LIST] + Encode(obj.list[0].LayoutOf(), at + 1)
  {
  }

  lemma MapIsBuilt(obj: Element)
    requires obj.MapElement? && obj.Built()
    ensures forall i :: 0 <= i < |obj.entries| ==> obj.entries[i].value.Built()
    ensures obj.LayoutOf() == Map(Layouts(obj.entries))
  {
  }

  /** Numbers and strings are stored in the slot alone, lists and maps behind a pointer to the end of the vector. */
  lemma StoredChild(c: Element, at: nat)
    requires c.Built()
    ensures c.NumberElement? ==> Slot(c.LayoutOf(), at) == NUMBER && Behind(c.LayoutOf(), at) == []
    ensures c.StringElement? ==> Slot(c.LayoutOf(), at) == STRING && Behind(c.LayoutOf(), at) == []
    ensures c.ListElement? || c.MapElement?
            ==> Slot(c.LayoutOf(), at) == at && Behind(c.LayoutOf(), at) == Encode(c.LayoutOf(), at)
  {
  }

  class DynamicSchema {
    var words: seq<nat>

    constructor ()
      ensures words == []
    {
      words := [];
    }

    /** _produce_subschema: appends the schema of the element; its pointers count from the start of the vector. */
    method ProduceSubschema(obj: Element)
      requires obj.Built()
      modifies this
      ensures words == old(words) + Encode(obj.LayoutOf(), |old(words)|)
      decreases obj
    {
      hide *;
      match obj
      case NumberElement(_) =>
        words := words + [NUMBER];
        ScalarSchema(obj, |old(words)|);
      case StringElement(_) =>
        words := words + [STRING];
        ScalarSchema(obj, |old(words)|);
      case ListElement(es) =>
        ListSchema(obj, |old(words)|);
        words := words + [LIST];
        ProduceSubschema(es[0]);
      case MapElement(es) =>
        MapIsBuilt(obj);
        ghost var cs := Layouts(es);
        words := words + [MAP];
        words := words + [|es|];
        var childPosition := |words|;
        ghost var front := words;
        assert front == old(words) + [MAP, |cs|];
        var unset := new nat[|es|];
        ghost var tail := unset[..];
        words := words + unset[..];
        NothingWritten(front, tail, cs);
        for i := 0 to |es|
          invariant childPosition == |front| + i
          invariant PartlyWritten(words, front, tail, cs, i)
        {
          ChildAppended(words, front, tail, cs, i);
          LayoutAt(es, i);
          var child := es[i].value;
          ghost var partly := words;
          StoredChild(child, |words|);
          if child.NumberElement? {
            words := words[childPosition := NUMBER];
            assert words + [] == words;
          } else if child.StringElement? {
            words := words[childPosition := STRING];
            assert words + [] == words;
          } else {
            words := words[childPosition := |words|];
            ProduceSubschema(child);
          }
          assert words == partly[childPosition := Slot(cs[i], |partly|)] + Behind(cs[i], |partly|);
          childPosition := childPosition + 1;
        }
        AllAppended(words, old(words), tail, cs);
    }
  }

  // ----- the check of a list

  ghost predicate AllScalar(es: seq<Element>) {
    forall i :: 0 <= i < |es| ==> es[i].IsScalar()
  }

  ghost predicate NoneScalar(es: seq<Element>) {
    forall i :: 0 <= i < |es| ==> !es[i].IsScalar()
  }

  ghost predicate SameSchemas(es: seq<Element>)
    requires forall i :: 0 <= i < |es| ==> es[i].Built()
  {
    forall i :: 0 <= i < |es| ==> SchemaOf(es[i].LayoutOf()) == SchemaOf(es[0].LayoutOf())
  }

  ghost predicate SameLayouts(es: seq<Element>)
    requires forall i :: 0 <= i < |es| ==> es[i].Built()
  {
    forall i :: 0 <= i < |es| ==> es[i].LayoutOf() == es[0].LayoutOf()
  }

  ghost predicate SameFields(es: seq<Element>, field: seq<nat>)
    requires forall i :: 0 <= i < |es| ==> es[i].Built()
  {
    forall i :: 0 <= i < |es| ==> es[i].SchemaField() == field
  }

  lemma FirstField(es: seq<Element>)
    requires es != [] && es[0].Built()
    ensures SameFields(es[..1], es[0].SchemaField())
  {
  }

  lemma FieldSplit(es: seq<Element>, n: nat, field: seq<nat>)
    requires n < |es| && forall i :: 0 <= i < |es| ==> es[i].Built()
    requires SameFields(es[..n], field)
    ensures SameFields(es[..n + 1], field) <==> es[n].SchemaField() == field
    ensures SameFields(es, field) ==> es[n].SchemaField() == field
  {
    assert es[..n + 1] == es[..n] + [es[n]];
  }

  /** Empty schemas are those of scalars, so the fields agree when all entries are scalar or none is. */
  lemma {:induction false} FieldsAgree(es: seq<Element>)
    requires es != [] && forall i :: 0 <= i < |es| ==> es[i].Built()
    ensures AllScalar(es) || (NoneScalar(es) && SameSchemas(es))
            <==> SameFields(es, es[0].SchemaField())
  {
    forall i | 0 <= i < |es| ensures |es[i].SchemaField()| == 0 <==> es[i].IsScalar() {
      FieldIsEmpty(es[i]);
    }
    hide SchemaOf;
  }

  lemma FieldIsEmpty(e: Element)
    requires e.Built()
    ensures |e.SchemaField()| == 0 <==> e.IsScalar()
  {
  }

  /**
   The check of a list always accepts entries of one layout. What it accepts are scalars only, which
   may be a mix of numbers and strings, or, if the layout of the first has a schema of its own, entries
   of one layout. Layouts of up to 253 words have one.
   */
  lemma {:induction false} ListCheckIsExact(es: seq<Element>)
    requires es != [] && forall i :: 0 <= i < |es| ==> es[i].Built()
    ensures SameLayouts(es) ==> AllScalar(es) || (NoneScalar(es) && SameSchemas(es))
    ensures !HasTwin(es[0].LayoutOf(), 0) && NoneScalar(es) && SameSchemas(es) ==> SameLayouts(es)
    ensures |es[0].SchemaField()| <= 253 ==> !HasTwin(es[0].LayoutOf(), 0)
  {
    if SameLayouts(es) {
      forall i | 0 <= i < |es| ensures es[i].IsScalar() == es[0].IsScalar() {
        ScalarByLayout(es[i]);
        ScalarByLayout(es[0]);
      }
    }
    if !HasTwin(es[0].LayoutOf(), 0) && NoneScalar(es) && SameSchemas(es) {
      OwnSchemaExactly(es[0].LayoutOf());
    }
    FewWordsHaveNoTwin(es[0]);
  }

  lemma FewWordsHaveNoTwin(e: Element)
    requires e.Built()
    ensures |e.SchemaField()| <= 253 ==> !HasTwin(e.LayoutOf(), 0)
  {
    if e.IsScalar() {
      assert e.LayoutOf().Number? || e.LayoutOf().String?;
    } else {
      UnambiguousHasNoTwin(e.LayoutOf());
    }
  }

  /** The lists that start with this element and pass the check hold entries of one layout only. */
  ghost predicate AcceptsOneLayout(first: Element)
    requires first.Built()
  {
    forall es: seq<Element> ::
      es != [] && es[0] == first && (forall i :: 0 <= i < |es| ==> es[i].Built()) && NoneScalar(es) && SameSchemas(es)
      ==> SameLayouts(es)
  }

  /** An element of this layout. */
  function ElementOf(l: Layout): (e: Element)
    requires Solid(l)
    ensures e.Built() && e.LayoutOf() == l
    decreases l, 0
  {
    match l
    case Number => NumberElement(0.0)
    case String => StringElement("")
    case List(e) => ListElement([ElementOf(e)])
    case Map(cs) => MapElement(EntriesOf(cs))
  }

  function EntriesOf(cs: seq<Layout>): (es: seq<Entry>)
    requires AllSolid(cs)
    ensures |es| == |cs| && (forall i :: 0 <= i < |es| ==> es[i].value.Built()) && Layouts(es) == cs
    decreases cs, 1
  {
    if cs == [] then [] else [Entry("", ElementOf(cs[0]))] + EntriesOf(cs[1..])
  }

  lemma {:induction false} BuiltIsSolid(e: Element)
    requires e.Built()
    ensures Solid(e.LayoutOf())
    decreases e, 0
  {
    match e
    case NumberElement(_) =>
    case StringElement(_) =>
    case ListElement(es) => BuiltIsSolid(es[0]);
    case MapElement(es) => AllBuiltAreSolid(es);
  }

  lemma {:induction false} AllBuiltAreSolid(es: seq<Entry>)
    requires forall i :: 0 <= i < |es| ==> es[i].value.Built()
    ensures AllSolid(Layouts(es))
    decreases es, 1
  {
    if es != [] {
      BuiltIsSolid(es[0].value);
      AllBuiltAreSolid(es[1..]);
    }
  }

  /** The check lets a different layout through behind some container exactly if its layout has a twin. */
  lemma ListCheckConfusesTwinsExactly(first: Element)
    requires first.Built() && !first.IsScalar()
    ensures AcceptsOneLayout(first) <==> !HasTwin(first.LayoutOf(), 0)
  {
    hide *;
    if HasTwin(first.LayoutOf(), 0) {
      var b := TwinOf(first.LayoutOf(), 0);
      BuiltIsSolid(first);
      var e := ElementOf(b);
      TwinIsAccepted(first, e);
    } else {
      OwnSchemaExactly(first.LayoutOf());
      OwnSchemaIsEnough(first);
    }
  }

  lemma TwinIsAccepted(first: Element, e: Element)
    requires first.Built() && !first.IsScalar() && e.Built() && !e.LayoutOf().IsInline()
    requires Encode(e.LayoutOf(), 0) == Encode(first.LayoutOf(), 0) && e.LayoutOf() != first.LayoutOf()
    ensures !AcceptsOneLayout(first)
  {
    hide Encode, Element.LayoutOf, Element.Built;
    var es := [first, e];
    ScalarByLayout(e);
    assert es[1] == e && !SameLayouts(es);
    assert NoneScalar(es) && SameSchemas(es);
  }

  lemma OwnSchemaIsEnough(first: Element)
    requires first.Built() && forall b: Layout :: SchemaOf(b) == SchemaOf(first.LayoutOf()) ==> b == first.LayoutOf()
    ensures AcceptsOneLayout(first)
  {
    hide SchemaOf, Element.LayoutOf, Element.Built;
  }

  lemma ScalarByLayout(e: Element)
    requires e.Built()
    ensures e.IsScalar() <==> e.LayoutOf().IsInline()
  {
  }

  /** _produce_list: whether the entries can form a list. */
  method ProduceList(entries: seq<Element>) returns (ok: bool)
    requires entries != [] && forall i :: 0 <= i < |entries| ==> entries[i].Built()
    ensures ok <==> AllScalar(entries) || (NoneScalar(entries) && SameSchemas(entries))
    ensures SameLayouts(entries) ==> ok
    ensures ok && !HasTwin(entries[0].LayoutOf(), 0) ==> AllScalar(entries) || SameLayouts(entries)
  {
    FieldsAgree(entries);
    ListCheckIsExact(entries);
    hide *;
    var referenceSchema := entries[0].SchemaField();
    FirstField(entries);
    for i := 1 to |entries|
      invariant SameFields(entries[..i], referenceSchema)
    {
      FieldSplit(entries, i, referenceSchema);
      if entries[i].SchemaField() != referenceSchema {
        return false;
      }
    }
    assert entries[..|entries|] == entries;
    return true;
  }
}
