/** No bytes that are read as a value are fewer than those that are written for it, but for two sizes of extensions. */
module MsgPackShortest {
  import opened MsgPack
  import opened MsgPackOrder
  import opened MsgPackKeys
  import opened MsgPackFormat
  import opened MsgPackRoundTrip
  import opened Sequences

  // ----- what a value costs

  /** Extensions of these sizes are written with the next wider header. */
  function Excess(n: nat): nat {
    if n == 0xff then 1 else if n == 0xffff then 2 else 0
  }

  /** The number of bytes that are written for a value, less what extensions of those two sizes take too much. */
  function Cost(v: Pack): nat
    decreases v, 0
  {
    match v
    case Nil => 1
    case Bool(_) => 1
    case Int(i) => if i < MIN_INT64 then 0 else |IntBytes(i)|
    case Uint(n) => |UintBytes(n)|
    case Float(m) => 1 + |m|
    case Double(m) => 1 + |m|
    case String(s) => |StringHeader(|s|)| + |s|
    case Binary(d) => |BinaryHeader(|d|)| + |d|
    case Array(es) => |ArrayHeader(|es|)| + CostOfAll(es)
    case Map(es) => |MapHeader(|es|)| + CostOfEntries(es)
    case Extension(_, d) => |ExtensionHeader(|d|)| + 1 + |d| - Excess(|d|)
  }

  function CostOfAll(es: seq<Pack>): nat
    decreases es, 1
  {
    if es == [] then 0 else Cost(es[0]) + CostOfAll(es[1..])
  }

  function CostOfEntries(es: seq<Entry>): nat
    decreases es, 1
  {
    if es == [] then 0 else CostOfEntry(es[0]) + CostOfEntries(es[1..])
  }

  function CostOfEntry(e: Entry): nat
    decreases e, 1
  {
    Cost(e.key) + Cost(e.value)
  }

  /** By how many bytes what is written could be shorter. */
  function Waste(v: Pack): nat
    decreases v, 0
  {
    match v
    case Array(es) => WasteOfAll(es)
    case Map(es) => WasteOfEntries(es)
    case Extension(_, d) => Excess(|d|)
    case _ => 0
  }

  function WasteOfAll(es: seq<Pack>): nat
    decreases es, 1
  {
    if es == [] then 0 else Waste(es[0]) + WasteOfAll(es[1..])
  }

  function WasteOfEntries(es: seq<Entry>): nat
    decreases es, 1
  {
    if es == [] then 0 else WasteOfEntry(es[0]) + WasteOfEntries(es[1..])
  }

  function WasteOfEntry(e: Entry): nat
    decreases e, 1
  {
    Waste(e.key) + Waste(e.value)
  }

  lemma {:induction false} LengthIsCost(v: Pack)
    requires Writable(v)
    ensures |Bytes(v)| == Cost(v) + Waste(v)
    decreases v, 0
  {
    hide Reversed, IntBytes, UintBytes, StringHeader, BinaryHeader, ArrayHeader, MapHeader;
    match v
    case Array(es) => LengthOfAll(es);
    case Map(es) => LengthOfEntries(es);
    case _ =>
  }

  lemma {:induction false} LengthOfAll(es: seq<Pack>)
    requires AllWritable(es)
    ensures |AllBytes(es)| == CostOfAll(es) + WasteOfAll(es)
    decreases es, 1
  {
    hide Bytes, Cost, Waste, Writable;
    if es != [] {
      LengthIsCost(es[0]);
      LengthOfAll(es[1..]);
    }
  }

  lemma {:induction false} LengthOfEntries(es: seq<Entry>)
    requires EntriesWritable(es)
    ensures |EntriesBytes(es)| == CostOfEntries(es) + WasteOfEntries(es)
    decreases es, 1
  {
    hide EntryBytes, CostOfEntry, WasteOfEntry, EntryWritable;
    if es != [] {
      LengthOfEntry(es[0]);
      LengthOfEntries(es[1..]);
    }
  }

  lemma {:induction false} LengthOfEntry(e: Entry)
    requires EntryWritable(e)
    ensures |EntryBytes(e)| == CostOfEntry(e) + WasteOfEntry(e)
    decreases e, 1
  {
    hide Bytes, Cost, Waste, Writable;
    LengthIsCost(e.key);
    LengthIsCost(e.value);
  }

  // ----- headers

  lemma TakenNumber(s: seq<byte>, k: nat)
    requires TakeNumber(s, k).Parsed?
    ensures TakeNumber(s, k).value < Span(k) && |TakeNumber(s, k).rest| == |s| - k
  {
    hide Reversed, Number, Span;
    BelowSpan(Reversed(s[..k]));
  }

  /** The widths that can follow a first byte, and the sizes that can be part of it. */
  lemma Widths(b: byte)
    ensures var h := HeaderOf(b);
            && (h.UintHeader? ==> h.width in {1, 2, 4, 8}) && (h.IntHeader? ==> h.width in {1, 2, 4, 8})
            && (h.StringOf? && h.l.Follows? ==> h.l.width in {1, 2, 4}) && (h.StringOf? && h.l.Given? ==> h.l.n < 32)
            && (h.BinaryOf? ==> h.l.Follows? && h.l.width in {1, 2, 4})
            && (h.ArrayOf? && h.l.Follows? ==> h.l.width in {2, 4}) && (h.ArrayOf? && h.l.Given? ==> h.l.n < 16)
            && (h.MapOf? && h.l.Follows? ==> h.l.width in {2, 4}) && (h.MapOf? && h.l.Given? ==> h.l.n < 16)
            && (h.ExtensionOf? && h.l.Follows? ==> h.l.width in {1, 2, 4})
            && (h.ExtensionOf? && h.l.Given? ==> h.l.n in {1, 2, 4, 8, 16})
            && (h.SmallUint? ==> h.n < 128) && (h.SmallInt? ==> -32 <= h.i < 0)
  {
  }

  lemma UintIsShortest(n: nat, k: nat)
    requires k in {1, 2, 4, 8} && n < Span(k)
    ensures |UintBytes(n)| <= 1 + k
  {
    hide Span, Wire;
    SpanValues();
  }

  lemma IntIsShortest(n: nat, k: nat)
    requires k in {1, 2, 4, 8} && n < Span(k)
    ensures Signed(n, k) >= MIN_INT64 && |IntBytes(Signed(n, k))| <= 1 + k
  {
    hide Span, Wire;
    SpanValues();
  }

  /** The bytes of a size in a header. */
  function Width(l: Length): nat {
    match l
    case Given(_) => 0
    case Follows(k) => k
  }

  lemma TakenLength(s: seq<byte>, l: Length)
    requires TakeLength(s, l).Parsed?
    ensures |TakeLength(s, l).rest| == |s| - Width(l)
    ensures if l.Given? then TakeLength(s, l).value == l.n else TakeLength(s, l).value < Span(l.width)
  {
    hide TakeNumber, Span;
    if l.Follows? {
      TakenNumber(s, l.width);
    }
  }

  /** A size that a header can give is not given by a shorter one than that which is written. */
  lemma SizesAreShortest(n: nat, k: nat)
    requires k in {1, 2, 4} && n < Span(k)
    ensures |StringHeader(n)| <= 1 + k && |BinaryHeader(n)| <= 1 + k
    ensures k > 1 ==> |ArrayHeader(n)| <= 1 + k && |MapHeader(n)| <= 1 + k
    ensures |ExtensionHeader(n)| - Excess(n) <= 1 + k
  {
    hide Span, Wire;
    SpanValues();
  }

  lemma SmallSizesAreShortest(n: nat)
    ensures n < 32 ==> |StringHeader(n)| == 1
    ensures n < 16 ==> |ArrayHeader(n)| == 1 && |MapHeader(n)| == 1
    ensures n in {1, 2, 4, 8, 16} ==> |ExtensionHeader(n)| == 1 && Excess(n) == 0
  {
  }

  lemma MapHeadersGrow(m: nat, n: nat)
    requires m <= n
    ensures |MapHeader(m)| <= |MapHeader(n)|
  {
    hide Wire;
  }

  // ----- what is read costs no more than what it is read from

  lemma {:induction false} ParseCosts(s: seq<byte>, depth: nat)
    requires Parse(s, depth).Parsed?
    ensures Cost(Parse(s, depth).value) + |Parse(s, depth).rest| <= |s|
    decreases MAX_DEPTH + 1 - depth, 0
  {
    hide HeaderOf, ParseBody, Cost;
    BodyCosts(s[0], s[1..], depth + 1);
  }

  /** The first byte has been read. */
  lemma {:induction false} BodyCosts(b: byte, s: seq<byte>, depth: nat)
    requires 0 < depth <= MAX_DEPTH + 1 && ParseBody(HeaderOf(b), s, depth).Parsed?
    ensures var r := ParseBody(HeaderOf(b), s, depth); Cost(r.value) + |r.rest| <= |s| + 1
    decreases MAX_DEPTH + 1 - depth, 3
  {
    hide *;
    Widths(b);
    var h := HeaderOf(b);
    match h
    case ArrayOf(l) =>
      ContainerIs(h, s, depth);
      ArrayBodyCosts(s, l, depth);
    case MapOf(l) =>
      ContainerIs(h, s, depth);
      MapBodyCosts(s, l, depth);
    case StringOf(l) =>
      DataIs(h, s, depth);
      DataCosts(s, l);
    case BinaryOf(l) =>
      DataIs(h, s, depth);
      DataCosts(s, l);
    case ExtensionOf(l) =>
      DataIs(h, s, depth);
      ExtensionCosts(s, l);
    case _ =>
      NumberCosts(b, s, depth);
  }

  lemma NumberCosts(b: byte, s: seq<byte>, depth: nat)
    requires 0 < depth <= MAX_DEPTH + 1 && ParseBody(HeaderOf(b), s, depth).Parsed?
    requires var h := HeaderOf(b);
             !h.ArrayOf? && !h.MapOf? && !h.StringOf? && !h.BinaryOf? && !h.ExtensionOf?
    ensures var r := ParseBody(HeaderOf(b), s, depth); Cost(r.value) + |r.rest| <= |s| + 1
  {
    hide HeaderOf, TakeNumber, IntBytes, UintBytes, Signed, Reversed, Span;
    Widths(b);
    match HeaderOf(b)
    case SmallUint(n) => OneByteNumbers(n, -1);
    case SmallInt(i) => OneByteNumbers(0, i);
    case UintHeader(k) =>
      TakenNumber(s, k);
      UintIsShortest(TakeNumber(s, k).value, k);
    case IntHeader(k) =>
      TakenNumber(s, k);
      IntIsShortest(TakeNumber(s, k).value, k);
    case _ =>
  }

  /** The case of ParseBody for arrays and maps, and what they cost. */
  lemma ContainerIs(h: Header, s: seq<byte>, depth: nat)
    requires 0 < depth <= MAX_DEPTH + 1 && ParseBody(h, s, depth).Parsed? && (h.ArrayOf? || h.MapOf?)
    ensures var r := TakeLength(s, h.l);
            && r.Parsed?
            && (h.ArrayOf? ==> ParseBody(h, s, depth) == ParseArray(r.rest, r.value, depth, []))
            && (h.MapOf? ==> ParseBody(h, s, depth) == ParseMap(r.rest, r.value, depth, []))
    ensures var v := ParseBody(h, s, depth).value;
            && (v.Array? ==> Cost(v) == |ArrayHeader(|v.elements|)| + CostOfAll(v.elements))
            && (v.Map? ==> Cost(v) == |MapHeader(|v.entries|)| + CostOfEntries(v.entries))
  {
    hide TakeLength, ParseArray, ParseMap, ArrayHeader, MapHeader, CostOfAll, CostOfEntries;
  }

  /** The cases of ParseBody for strings, binary data and extensions. */
  lemma DataIs(h: Header, s: seq<byte>, depth: nat)
    requires 0 < depth <= MAX_DEPTH + 1 && ParseBody(h, s, depth).Parsed?
    requires h.StringOf? || h.BinaryOf? || h.ExtensionOf?
    ensures var r := ParseBody(h, s, depth);
            && (h.StringOf? ==> var d := TakeData(s, h.l);
                                d.Parsed? && Cost(r.value) == |StringHeader(|d.value|)| + |d.value| && r.rest == d.rest)
            && (h.BinaryOf? ==> var d := TakeData(s, h.l);
                                d.Parsed? && Cost(r.value) == |BinaryHeader(|d.value|)| + |d.value| && r.rest == d.rest)
    ensures h.ExtensionOf? ==>
              && TakeLength(s, h.l).Parsed?
              && var r := TakeExtension(TakeLength(s, h.l).rest, TakeLength(s, h.l).value);
              r.Parsed? && r.value.Extension? && ParseBody(h, s, depth) == r
              && Cost(r.value) == |ExtensionHeader(|r.value.data|)| + 1 + |r.value.data| - Excess(|r.value.data|)
  {
    hide TakeLength, TakeData, TakeMemory, StringHeader, BinaryHeader, ExtensionHeader, Excess;
  }

  lemma OneByteNumbers(n: nat, i: int)
    requires n < 128 && -32 <= i < 0
    ensures |UintBytes(n)| == 1 && |IntBytes(i)| == 1
  {
  }

  lemma DataCosts(s: seq<byte>, l: Length)
    requires TakeData(s, l).Parsed?
    requires l.Follows? ==> l.width in {1, 2, 4}
    ensures var r := TakeData(s, l); |r.value| + |r.rest| == |s| - Width(l)
    ensures l.Follows? ==> |BinaryHeader(|TakeData(s, l).value|)| <= 1 + Width(l)
    ensures l.Follows? || l.n < 32 ==> |StringHeader(|TakeData(s, l).value|)| <= 1 + Width(l)
  {
    hide TakeLength, TakeMemory, StringHeader, BinaryHeader, Span;
    TakenLength(s, l);
    var n := TakeLength(s, l).value;
    if l.Follows? {
      SizesAreShortest(n, l.width);
    } else {
      SmallSizesAreShortest(n);
    }
  }

  lemma ExtensionCosts(s: seq<byte>, l: Length)
    requires l.Follows? ==> l.width in {1, 2, 4}
    requires l.Given? ==> l.n in {1, 2, 4, 8, 16}
    requires TakeLength(s, l).Parsed? && TakeExtension(TakeLength(s, l).rest, TakeLength(s, l).value).Parsed?
    ensures var r := TakeExtension(TakeLength(s, l).rest, TakeLength(s, l).value);
            && r.value.Extension?
            && |ExtensionHeader(|r.value.data|)| + 1 + |r.value.data| - Excess(|r.value.data|) + |r.rest| <= |s| + 1
  {
    hide TakeLength, TakeMemory, ExtensionHeader, Excess, Span;
    TakenLength(s, l);
    var n := TakeLength(s, l).value;
    if l.Follows? {
      SizesAreShortest(n, l.width);
    } else {
      SmallSizesAreShortest(n);
    }
  }

  lemma {:induction false} ArrayBodyCosts(s: seq<byte>, l: Length, depth: nat)
    requires 0 < depth <= MAX_DEPTH + 1 && (l.Follows? ==> l.width in {2, 4}) && (l.Given? ==> l.n < 16)
    requires TakeLength(s, l).Parsed? && ParseArray(TakeLength(s, l).rest, TakeLength(s, l).value, depth, []).Parsed?
    ensures var r := ParseArray(TakeLength(s, l).rest, TakeLength(s, l).value, depth, []);
            r.value.Array? && |ArrayHeader(|r.value.elements|)| + CostOfAll(r.value.elements) + |r.rest| <= |s| + 1
    decreases MAX_DEPTH + 1 - depth, 2
  {
    hide TakeLength, ParseArray, ArrayHeader, CostOfAll, Span;
    TakenLength(s, l);
    var n := TakeLength(s, l).value;
    ArrayCosts(TakeLength(s, l).rest, n, depth, []);
    NoCost();
    if l.Follows? {
      SizesAreShortest(n, l.width);
    } else {
      SmallSizesAreShortest(n);
    }
  }

  lemma NoCost()
    ensures CostOfAll([]) == 0 && CostOfEntries([]) == 0
  {
  }

  lemma {:induction false} MapBodyCosts(s: seq<byte>, l: Length, depth: nat)
    requires 0 < depth <= MAX_DEPTH + 1 && (l.Follows? ==> l.width in {2, 4}) && (l.Given? ==> l.n < 16)
    requires TakeLength(s, l).Parsed? && ParseMap(TakeLength(s, l).rest, TakeLength(s, l).value, depth, []).Parsed?
    ensures var r := ParseMap(TakeLength(s, l).rest, TakeLength(s, l).value, depth, []);
            r.value.Map? && |MapHeader(|r.value.entries|)| + CostOfEntries(r.value.entries) + |r.rest| <= |s| + 1
    decreases MAX_DEPTH + 1 - depth, 2
  {
    hide TakeLength, ParseMap, MapHeader, CostOfEntries, Span;
    TakenLength(s, l);
    var n := TakeLength(s, l).value;
    MapCosts(TakeLength(s, l).rest, n, depth, []);
    MapHeadersGrow(|ParseMap(TakeLength(s, l).rest, n, depth, []).value.entries|, n);
    NoCost();
    if l.Follows? {
      SizesAreShortest(n, l.width);
    } else {
      SmallSizesAreShortest(n);
    }
  }

  lemma {:induction false} ArrayCosts(s: seq<byte>, n: nat, depth: nat, es: seq<Pack>)
    requires depth <= MAX_DEPTH + 1 && ParseArray(s, n, depth, es).Parsed?
    ensures var r := ParseArray(s, n, depth, es);
            && r.value.Array? && |r.value.elements| == |es| + n
            && CostOfAll(r.value.elements) + |r.rest| <= CostOfAll(es) + |s|
    decreases MAX_DEPTH + 1 - depth, 1, n
  {
    hide Parse, CostOfAll, Cost;
    if n > 0 {
      var r := Parse(s, depth);
      ParseCosts(s, depth);
      ArrayCosts(r.rest, n - 1, depth, es + [r.value]);
      OneMoreElement(es, r.value);
    }
  }

  lemma {:induction false} OneMoreElement(es: seq<Pack>, e: Pack)
    ensures CostOfAll(es + [e]) == CostOfAll(es) + Cost(e)
  {
    hide Cost;
    if es == [] {
      assert es + [e] == [e];
    } else {
      assert (es + [e])[1..] == es[1..] + [e];
      OneMoreElement(es[1..], e);
    }
  }

  lemma {:induction false} MapCosts(s: seq<byte>, n: nat, depth: nat, es: seq<Entry>)
    requires depth <= MAX_DEPTH + 1 && ParseMap(s, n, depth, es).Parsed?
    ensures var r := ParseMap(s, n, depth, es);
            && r.value.Map? && |r.value.entries| <= |es| + n
            && CostOfEntries(r.value.entries) + |r.rest| <= CostOfEntries(es) + |s|
    decreases MAX_DEPTH + 1 - depth, 1, n
  {
    hide ParseEntry, CostOfEntries, CostOfEntry, Emplaced;
    if n > 0 {
      var r := ParseEntry(s, depth);
      EntryCosts(s, depth);
      MapCosts(r.rest, n - 1, depth, Emplaced(es, r.value));
      EmplacedCosts(es, r.value);
    }
  }

  lemma {:induction false} EntryCosts(s: seq<byte>, depth: nat)
    requires depth <= MAX_DEPTH + 1 && ParseEntry(s, depth).Parsed?
    ensures CostOfEntry(ParseEntry(s, depth).value) + |ParseEntry(s, depth).rest| <= |s|
    decreases MAX_DEPTH + 1 - depth, 1, 0
  {
    hide Parse, Cost;
    ParseCosts(s, depth);
    ParseCosts(Parse(s, depth).rest, depth);
  }

  lemma {:induction false} InsertedCosts(es: seq<Entry>, e: Entry)
    ensures CostOfEntries(Inserted(es, e)) == CostOfEntries(es) + CostOfEntry(e) && |Inserted(es, e)| == |es| + 1
  {
    hide Compare, CostOfEntry;
    if es == [] || Compare(e.key, es[0].key).Before? {
      assert ([e] + es)[1..] == es;
    } else {
      assert ([es[0]] + Inserted(es[1..], e))[1..] == Inserted(es[1..], e);
      InsertedCosts(es[1..], e);
    }
  }

  lemma EmplacedCosts(es: seq<Entry>, e: Entry)
    ensures CostOfEntries(Emplaced(es, e)) <= CostOfEntries(es) + CostOfEntry(e) && |Emplaced(es, e)| <= |es| + 1
  {
    hide CostOfEntries, CostOfEntry, Inserted, HasKey;
    InsertedCosts(es, e);
  }

  /** Whatever bytes are read as a value: for it no more are written, but for two sizes of extensions. */
  lemma ShortestIsWritten(v: Pack, s: seq<byte>, depth: nat, rest: seq<byte>)
    requires Writable(v) && Parse(s, depth) == Parsed(v, rest)
    ensures |Bytes(v)| <= |s| - |rest| + Waste(v)
  {
    hide *;
    ParseCosts(s, depth);
    LengthIsCost(v);
  }

  // ----- values that are read back in another form

  lemma {:induction false} ReadBackCosts(v: Pack)
    requires Writable(v) && KeysDistinct(v)
    ensures Cost(ReadBack(v)) == Cost(v)
    decreases v, 0
  {
    hide UintBytes, StringHeader, BinaryHeader, ArrayHeader, MapHeader, ExtensionHeader, CostOfAll, CostOfEntries,
         ReadBackAll, ReadBackEntries, EntriesDistinct, AllDistinct, EntriesWritable, AllWritable, Excess;
    match v
    case Array(es) => AllReadBackCost(es);
    case Map(es) =>
      NothingIsNew(es);
      NoCost();
      EntriesReadBackCost([], es);
    case _ =>
  }

  lemma {:induction false} AllReadBackCost(es: seq<Pack>)
    requires AllWritable(es) && AllDistinct(es)
    ensures CostOfAll(ReadBackAll(es)) == CostOfAll(es) && |ReadBackAll(es)| == |es|
    decreases es, 1
  {
    hide Cost, ReadBack, Writable, KeysDistinct;
    if es != [] {
      ReadBackCosts(es[0]);
      AllReadBackCost(es[1..]);
      assert ReadBackAll(es)[1..] == ReadBackAll(es[1..]);
    }
  }

  lemma {:induction false} EntriesReadBackCost(front: seq<Entry>, es: seq<Entry>)
    requires Sorted(front) && EntriesNormal(front) && EntriesDistinct(es) && NewKeys(front, es) && EntriesWritable(es)
    ensures CostOfEntries(ReadBackEntries(front, es)) == CostOfEntries(front) + CostOfEntries(es)
    ensures |ReadBackEntries(front, es)| == |front| + |es|
    decreases es, 1
  {
    hide Sorted, EntriesNormal, NewKeys, Inserted, Emplaced, ReadBackEntry, CostOfEntry, EntryWritable, EntryDistinct,
         MeaningOf, HasMeaning;
    if es != [] {
      var e := ReadBackEntry(es[0]);
      NewEntryIsInserted(front, es);
      InsertedCosts(front, e);
      EntryReadBackCosts(es[0]);
      EntriesReadBackCost(Inserted(front, e), es[1..]);
    }
  }

  lemma {:induction false} EntryReadBackCosts(e: Entry)
    requires EntryWritable(e) && EntryDistinct(e)
    ensures CostOfEntry(ReadBackEntry(e)) == CostOfEntry(e)
    decreases e, 1
  {
    hide Cost, ReadBack, Writable, KeysDistinct;
    ReadBackCosts(e.key);
    ReadBackCosts(e.value);
  }

  /** The same for a value that is read back in another form: nothing shorter is read as that form. */
  lemma SerializedIsShortest(v: Pack, s: seq<byte>, depth: nat, rest: seq<byte>)
    requires Writable(v) && KeysDistinct(v) && Parse(s, depth) == Parsed(ReadBack(v), rest)
    ensures |Bytes(v)| <= |s| - |rest| + Waste(v)
  {
    hide *;
    ParseCosts(s, depth);
    LengthIsCost(v);
    ReadBackCosts(v);
  }

  /** An extension of 255 bytes takes one byte more than what would be read as it, and one of 65535 bytes two. */
  lemma LargestExtensionsAreLonger(kind: byte, d: seq<byte>, rest: seq<byte>)
    requires |d| == 0xff || |d| == 0xffff
    ensures var k := if |d| == 0xff then 1 else 2;
            var s := [if k == 1 then 0xc7 else 0xc8] + Wire(|d|, k) + ([kind] + Reversed(d));
            Parse(s + rest, 0) == Parsed(Extension(kind, d), rest) && |Bytes(Extension(kind, d))| == |s| + k
  {
    hide Wire, Reversed, Span, TakeNumber, TakeExtension;
    SpanValues();
    var k := if |d| == 0xff then 1 else 2;
    var header := [if k == 1 then 0xc7 else 0xc8] + Wire(|d|, k);
    var body := [kind] + Reversed(d);
    WireIsRead(header[0], |d|, k, header, body + rest);
    ExtensionIsRead(kind, d, rest);
    var s := header + body + rest;
    assert s[0] == header[0] && s[1..] == header[1..] + (body + rest);
  }
}
