/** What is written is read back, up to the sign type of integers and to map keys that only differ in it. */
module MsgPackRoundTrip {
  import opened MsgPack
  import opened Sequences

  // ----- numbers

  lemma {:induction false} NumberOfMemory(n: nat, k: nat)
    requires n < Span(k)
    ensures Number(Memory(n, k)) == n
  {
    if k > 0 {
      NumberOfMemory(n / 256, k - 1);
      assert Memory(n, k)[1..] == Memory(n / 256, k - 1);
    }
  }

  lemma SpanValues()
    ensures Span(1) == 0x100 && Span(2) == 0x1_0000 && Span(4) == 0x1_0000_0000
    ensures Span(8) == 0x1_0000_0000_0000_0000
  {
  }

  lemma TakeReversed(m: seq<byte>, rest: seq<byte>)
    ensures TakeMemory(Reversed(m) + rest, |m|) == Parsed(m, rest)
  {
    var s := Reversed(m) + rest;
    assert s[..|m|] == Reversed(m) && s[|m|..] == rest;
    ReversedTwice(m);
  }

  lemma TakeWire(n: nat, k: nat, rest: seq<byte>)
    requires n < Span(k)
    ensures TakeNumber(Wire(n, k) + rest, k) == Parsed(n, rest)
  {
    TakeReversed(Memory(n, k), rest);
    NumberOfMemory(n, k);
    hide Memory, Span, Number, TakeMemory;
  }

  // ----- headers

  /** A value whose first byte is b and which continues with s is read as v, with this rest. */
  ghost predicate BodyIs(b: byte, s: seq<byte>, depth: nat, v: Pack, rest: seq<byte>)
    requires depth <= MAX_DEPTH
  {
    ParseBody(HeaderOf(b), s, depth + 1) == Parsed(v, rest)
  }

  lemma UintIsRead(n: nat, rest: seq<byte>, depth: nat)
    requires n <= MAX_UINT64 && depth <= MAX_DEPTH
    ensures BodyIs(UintBytes(n)[0], UintBytes(n)[1..] + rest, depth, Uint(n), rest)
  {
    hide Span, Wire;
    SpanValues();
    if n < 128 {
      assert UintBytes(n)[1..] + rest == rest;
    } else if n < 0x100 {
      WireIsRead(0xcc, n, 1, UintBytes(n), rest);
    } else if n < 0x1_0000 {
      WireIsRead(0xcd, n, 2, UintBytes(n), rest);
    } else if n < 0x1_0000_0000 {
      WireIsRead(0xce, n, 4, UintBytes(n), rest);
    } else {
      WireIsRead(0xcf, n, 8, UintBytes(n), rest);
    }
  }

  lemma WireIsRead(b: byte, n: nat, k: nat, s: seq<byte>, rest: seq<byte>)
    requires s == [b] + Wire(n, k) && n < Span(k)
    ensures s[0] == b && TakeNumber(s[1..] + rest, k) == Parsed(n, rest)
  {
    TakeWire(n, k, rest);
    assert s[1..] == Wire(n, k);
  }

  lemma IntIsRead(i: int, rest: seq<byte>, depth: nat)
    requires MIN_INT64 <= i <= MAX_INT64 && depth <= MAX_DEPTH
    ensures BodyIs(IntBytes(i)[0], IntBytes(i)[1..] + rest, depth, if i >= 0 then Uint(i) else Int(i), rest)
  {
    if i >= 0 {
      UintIsRead(i, rest, depth);
    } else {
      NegativeIsRead(i, rest, depth);
    }
  }

  lemma NegativeIsRead(i: int, rest: seq<byte>, depth: nat)
    requires MIN_INT64 <= i < 0 && depth <= MAX_DEPTH
    ensures BodyIs(IntBytes(i)[0], IntBytes(i)[1..] + rest, depth, Int(i), rest)
  {
    hide Span, Wire, BodyIs, HeaderOf;
    SpanValues();
    IntHeaders();
    if i >= -32 {
      SmallIntIsRead(i, rest, depth);
    } else if i >= -0x80 {
      IntWireIsRead(0xd0, i, 1, IntBytes(i), rest, depth);
    } else if i >= -0x8000 {
      IntWireIsRead(0xd1, i, 2, IntBytes(i), rest, depth);
    } else if i >= -0x8000_0000 {
      IntWireIsRead(0xd2, i, 4, IntBytes(i), rest, depth);
    } else {
      IntWireIsRead(0xd3, i, 8, IntBytes(i), rest, depth);
    }
  }

  lemma IntHeaders()
    ensures HeaderOf(0xd0) == IntHeader(1) && HeaderOf(0xd1) == IntHeader(2)
    ensures HeaderOf(0xd2) == IntHeader(4) && HeaderOf(0xd3) == IntHeader(8)
  {
  }

  lemma SmallIntIsRead(i: int, rest: seq<byte>, depth: nat)
    requires -32 <= i < 0 && depth <= MAX_DEPTH
    ensures BodyIs(IntBytes(i)[0], IntBytes(i)[1..] + rest, depth, Int(i), rest)
  {
    assert IntBytes(i)[1..] + rest == rest;
  }

  lemma IntWireIsRead(b: byte, i: int, k: nat, s: seq<byte>, rest: seq<byte>, depth: nat)
    requires HeaderOf(b) == IntHeader(k) && i < 0 <= Span(k) + 2 * i && depth <= MAX_DEPTH
    requires s == [b] + Wire(Span(k) + i, k)
    ensures BodyIs(s[0], s[1..] + rest, depth, Int(i), rest)
  {
    hide Span, Wire, HeaderOf, TakeNumber;
    WireIsRead(b, Span(k) + i, k, s, rest);
  }

  lemma StringHeaderIsRead(n: nat, t: seq<byte>)
    requires n <= MAX_UINT32
    ensures var s := StringHeader(n);
            HeaderOf(s[0]).StringOf? && TakeLength(s[1..] + t, HeaderOf(s[0]).l) == Parsed(n, t)
  {
    hide Span, Wire, TakeNumber;
    SpanValues();
    if n < 32 {
      assert StringHeader(n)[1..] + t == t;
    } else if n < 0x100 {
      WireIsRead(0xd9, n, 1, StringHeader(n), t);
    } else if n < 0x1_0000 {
      WireIsRead(0xda, n, 2, StringHeader(n), t);
    } else {
      WireIsRead(0xdb, n, 4, StringHeader(n), t);
    }
  }

  lemma BinaryHeaderIsRead(n: nat, t: seq<byte>)
    requires n <= MAX_UINT32
    ensures var s := BinaryHeader(n);
            HeaderOf(s[0]).BinaryOf? && TakeLength(s[1..] + t, HeaderOf(s[0]).l) == Parsed(n, t)
  {
    hide Span, Wire, TakeNumber;
    SpanValues();
    if n < 0x100 {
      WireIsRead(0xc4, n, 1, BinaryHeader(n), t);
    } else if n < 0x1_0000 {
      WireIsRead(0xc5, n, 2, BinaryHeader(n), t);
    } else {
      WireIsRead(0xc6, n, 4, BinaryHeader(n), t);
    }
  }

  lemma ArrayHeaderIsRead(n: nat, t: seq<byte>)
    requires n <= MAX_UINT32
    ensures var s := ArrayHeader(n); HeaderOf(s[0]).ArrayOf? && TakeLength(s[1..] + t, HeaderOf(s[0]).l) == Parsed(n, t)
  {
    hide Span, Wire, TakeNumber;
    SpanValues();
    if n <= 15 {
      assert ArrayHeader(n)[1..] + t == t;
    } else if n < 0x1_0000 {
      WireIsRead(0xdc, n, 2, ArrayHeader(n), t);
    } else {
      WireIsRead(0xdd, n, 4, ArrayHeader(n), t);
    }
  }

  lemma MapHeaderIsRead(n: nat, t: seq<byte>)
    requires n <= MAX_UINT32
    ensures var s := MapHeader(n); HeaderOf(s[0]).MapOf? && TakeLength(s[1..] + t, HeaderOf(s[0]).l) == Parsed(n, t)
  {
    hide Span, Wire, TakeNumber;
    SpanValues();
    if n <= 15 {
      assert MapHeader(n)[1..] + t == t;
    } else if n < 0x1_0000 {
      WireIsRead(0xde, n, 2, MapHeader(n), t);
    } else {
      WireIsRead(0xdf, n, 4, MapHeader(n), t);
    }
  }

  lemma ExtensionHeaderIsRead(n: nat, t: seq<byte>)
    requires n < MAX_UINT32
    ensures var s := ExtensionHeader(n);
            HeaderOf(s[0]).ExtensionOf? && TakeLength(s[1..] + t, HeaderOf(s[0]).l) == Parsed(n, t)
  {
    hide Span, Wire, TakeNumber;
    SpanValues();
    if n in {1, 2, 4, 8, 16} {
      assert ExtensionHeader(n)[1..] + t == t;
    } else if n < 0xff {
      WireIsRead(0xc7, n, 1, ExtensionHeader(n), t);
    } else if n < 0xffff {
      WireIsRead(0xc8, n, 2, ExtensionHeader(n), t);
    } else {
      WireIsRead(0xc9, n, 4, ExtensionHeader(n), t);
    }
  }

  // ----- values

  /** What reading the bytes of v gives, when the reader is at this depth. */
  function Expected(v: Pack, depth: nat, rest: seq<byte>): Outcome<Pack> {
    if depth + Height(v) <= MAX_DEPTH then Parsed(ReadBack(v), rest) else Failed(RecursionDepthExceeded)
  }

  lemma Enter(v: Pack, header: seq<byte>, body: seq<byte>, depth: nat, rest: seq<byte>)
    requires Writable(v) && header != [] && Bytes(v) == header + body && depth <= MAX_DEPTH
    ensures Parse(Bytes(v) + rest, depth) == ParseBody(HeaderOf(header[0]), header[1..] + (body + rest), depth + 1)
  {
    hide Writable, HeaderOf, ParseBody, Bytes;
    var s := Bytes(v) + rest;
    assert s[0] == header[0] && s[1..] == header[1..] + (body + rest);
  }

  /** Values that are just one byte, or a number behind its header. */
  lemma NumberIsRead(v: Pack, depth: nat, rest: seq<byte>)
    requires Writable(v) && depth <= MAX_DEPTH && (v.Nil? || v.Bool? || v.Int? || v.Uint?)
    ensures Parse(Bytes(v) + rest, depth) == Parsed(ReadBack(v), rest)
  {
    hide Parse, HeaderOf, ParseBody, TakeNumber, Wire, IntBytes, UintBytes;
    var s := Bytes(v);
    Enter(v, s, [], depth, rest);
    assert s[1..] + ([] + rest) == s[1..] + rest;
    match v
    case Nil => OneByteIsRead(0xc0, rest, depth);
    case Bool(b) => OneByteIsRead(s[0], rest, depth);
    case Int(i) => IntIsRead(i, rest, depth);
    case Uint(n) => UintIsRead(n, rest, depth);
  }

  lemma OneByteIsRead(b: byte, rest: seq<byte>, depth: nat)
    requires depth <= MAX_DEPTH
    ensures b == 0xc0 ==> ParseBody(HeaderOf(b), [b][1..] + rest, depth + 1) == Parsed(Nil, rest)
    ensures b == 0xc2 ==> ParseBody(HeaderOf(b), [b][1..] + rest, depth + 1) == Parsed(Bool(false), rest)
    ensures b == 0xc3 ==> ParseBody(HeaderOf(b), [b][1..] + rest, depth + 1) == Parsed(Bool(true), rest)
  {
    assert [b][1..] + rest == rest;
  }

  lemma RealIsRead(v: Pack, depth: nat, rest: seq<byte>)
    requires Writable(v) && depth <= MAX_DEPTH && (v.Float? || v.Double?)
    ensures Parse(Bytes(v) + rest, depth) == Parsed(v, rest)
  {
    hide Parse, TakeMemory, Reversed;
    var m := v.memory;
    TakeReversed(m, rest);
    var header: seq<byte> := [if v.Float? then 0xca else 0xcb];
    Enter(v, header, Reversed(m), depth, rest);
    assert header[1..] + (Reversed(m) + rest) == Reversed(m) + rest;
  }

  lemma DataIsRead(v: Pack, depth: nat, rest: seq<byte>)
    requires Writable(v) && depth <= MAX_DEPTH && (v.String? || v.Binary? || v.Extension?)
    ensures Parse(Bytes(v) + rest, depth) == Parsed(v, rest)
  {
    hide Parse, HeaderOf, TakeMemory, TakeLength;
    match v
    case String(s) =>
      Enter(v, StringHeader(|s|), Reversed(s), depth, rest);
      StringHeaderIsRead(|s|, Reversed(s) + rest);
      TakeReversed(s, rest);
    case Binary(d) =>
      Enter(v, BinaryHeader(|d|), Reversed(d), depth, rest);
      BinaryHeaderIsRead(|d|, Reversed(d) + rest);
      TakeReversed(d, rest);
    case Extension(k, d) =>
      assert Bytes(v) == ExtensionHeader(|d|) + ([k] + Reversed(d));
      Enter(v, ExtensionHeader(|d|), [k] + Reversed(d), depth, rest);
      ExtensionHeaderIsRead(|d|, [k] + Reversed(d) + rest);
      ExtensionIsRead(k, d, rest);
  }

  lemma ExtensionIsRead(k: byte, d: seq<byte>, rest: seq<byte>)
    ensures TakeExtension([k] + Reversed(d) + rest, |d|) == Parsed(Extension(k, d), rest)
  {
    hide *;
    TakeReversed(d, rest);
    TakesExtension(k, Reversed(d) + rest, d, rest);
    Regrouped([k], Reversed(d), rest);
  }

  lemma Regrouped(a: seq<byte>, b: seq<byte>, c: seq<byte>)
    ensures a + (b + c) == a + b + c
  {
  }

  lemma TakesExtension(k: byte, s: seq<byte>, d: seq<byte>, rest: seq<byte>)
    requires TakeMemory(s, |d|) == Parsed(d, rest)
    ensures TakeExtension([k] + s, |d|) == Parsed(Extension(k, d), rest)
  {
    hide TakeMemory;
    assert ([k] + s)[1..] == s;
  }

  lemma ArrayEnters(es: seq<Pack>, depth: nat, rest: seq<byte>)
    requires Writable(Array(es)) && depth <= MAX_DEPTH
    ensures AllWritable(es)
    ensures Parse(Bytes(Array(es)) + rest, depth) == ParseArray(AllBytes(es) + rest, |es|, depth + 1, [])
  {
    hide Parse, HeaderOf, TakeLength, ParseArray;
    Enter(Array(es), ArrayHeader(|es|), AllBytes(es), depth, rest);
    ArrayHeaderIsRead(|es|, AllBytes(es) + rest);
  }

  lemma MapEnters(es: seq<Entry>, depth: nat, rest: seq<byte>)
    requires Writable(Map(es)) && depth <= MAX_DEPTH
    ensures EntriesWritable(es)
    ensures Parse(Bytes(Map(es)) + rest, depth) == ParseMap(EntriesBytes(es) + rest, |es|, depth + 1, [])
  {
    hide Parse, HeaderOf, TakeLength, ParseMap;
    Enter(Map(es), MapHeader(|es|), EntriesBytes(es), depth, rest);
    MapHeaderIsRead(|es|, EntriesBytes(es) + rest);
  }

  lemma ExpectedOfContainers(es: seq<Pack>, fs: seq<Entry>, depth: nat, rest: seq<byte>)
    ensures Expected(Array(es), depth, rest)
            == if depth + HeightOfAll(es) <= MAX_DEPTH then Parsed(Array(ReadBackAll(es)), rest)
               else Failed(RecursionDepthExceeded)
    ensures Expected(Map(fs), depth, rest)
            == if depth + HeightOfEntries(fs) <= MAX_DEPTH then Parsed(Map(ReadBackEntries([], fs)), rest)
               else Failed(RecursionDepthExceeded)
  {
  }

  lemma ExpectedOfLeaf(v: Pack, depth: nat, rest: seq<byte>)
    requires depth <= MAX_DEPTH && !v.Array? && !v.Map?
    ensures Expected(v, depth, rest) == Parsed(ReadBack(v), rest)
    ensures !v.Int? ==> ReadBack(v) == v
  {
  }

  lemma TooDeepIsExpected(v: Pack, depth: nat, rest: seq<byte>)
    requires Writable(v) && depth > MAX_DEPTH
    ensures Parse(Bytes(v) + rest, depth) == Expected(v, depth, rest)
  {
  }

  /**
   The bytes of a value, followed by any others, are read back as that value and leave just the others,
   or both the writer and the reader find it to be nested too deeply.
   */
  lemma {:induction false} ReadsWhatWasWritten(v: Pack, depth: nat, rest: seq<byte>)
    requires Writable(v)
    ensures Parse(Bytes(v) + rest, depth) == Expected(v, depth, rest)
    decreases v, 0
  {
    hide *;
    if depth > MAX_DEPTH {
      TooDeepIsExpected(v, depth, rest);
    } else if v.Array? {
      ArrayEnters(v.elements, depth, rest);
      ElementsAreRead(v.elements, [], depth + 1, rest);
      ExpectedOfContainers(v.elements, [], depth, rest);
      assert [] + ReadBackAll(v.elements) == ReadBackAll(v.elements);
    } else if v.Map? {
      MapEnters(v.entries, depth, rest);
      EntriesAreRead(v.entries, [], depth + 1, rest);
      ExpectedOfContainers([], v.entries, depth, rest);
    } else {
      ExpectedOfLeaf(v, depth, rest);
      if v.String? || v.Binary? || v.Extension? {
        DataIsRead(v, depth, rest);
      } else if v.Float? || v.Double? {
        RealIsRead(v, depth, rest);
      } else {
        NumberIsRead(v, depth, rest);
      }
    }
  }

  lemma {:induction false} ElementsAreRead(es: seq<Pack>, front: seq<Pack>, depth: nat, rest: seq<byte>)
    requires AllWritable(es) && depth <= MAX_DEPTH + 1
    ensures ParseArray(AllBytes(es) + rest, |es|, depth, front)
            == if depth + HeightOfAll(es) <= MAX_DEPTH + 1 then Parsed(Array(front + ReadBackAll(es)), rest)
               else Failed(RecursionDepthExceeded)
    decreases es, 1
  {
    hide Bytes, Writable, Height, Parse, ReadBack;
    if es == [] {
      assert front + [] == front && AllBytes(es) + rest == rest;
    } else {
      var more := AllBytes(es[1..]) + rest;
      assert AllBytes(es) + rest == Bytes(es[0]) + more;
      ReadsWhatWasWritten(es[0], depth, more);
      ElementsAreRead(es[1..], front + [ReadBack(es[0])], depth, rest);
      assert front + [ReadBack(es[0])] + ReadBackAll(es[1..]) == front + ReadBackAll(es);
    }
  }

  lemma {:induction false} EntriesAreRead(es: seq<Entry>, front: seq<Entry>, depth: nat, rest: seq<byte>)
    requires EntriesWritable(es) && depth <= MAX_DEPTH + 1
    ensures ParseMap(EntriesBytes(es) + rest, |es|, depth, front)
            == if depth + HeightOfEntries(es) <= MAX_DEPTH + 1 then Parsed(Map(ReadBackEntries(front, es)), rest)
               else Failed(RecursionDepthExceeded)
    decreases es, 1
  {
    hide EntryBytes, EntryWritable, HeightOfEntry, ParseEntry, ReadBackEntry, Emplaced;
    if es == [] {
      assert EntriesBytes(es) + rest == rest;
    } else {
      var more := EntriesBytes(es[1..]) + rest;
      assert EntriesBytes(es) + rest == EntryBytes(es[0]) + more;
      EntryIsRead(es[0], depth, more);
      EntriesAreRead(es[1..], Emplaced(front, ReadBackEntry(es[0])), depth, rest);
    }
  }

  lemma {:induction false} EntryIsRead(e: Entry, depth: nat, rest: seq<byte>)
    requires EntryWritable(e) && depth <= MAX_DEPTH + 1
    ensures ParseEntry(EntryBytes(e) + rest, depth)
            == if depth + HeightOfEntry(e) <= MAX_DEPTH then Parsed(ReadBackEntry(e), rest)
               else Failed(RecursionDepthExceeded)
    decreases e, 1
  {
    assert EntryBytes(e) + rest == Bytes(e.key) + (Bytes(e.value) + rest);
    ReadsWhatWasWritten(e.key, depth, Bytes(e.value) + rest);
    ReadsWhatWasWritten(e.value, depth, rest);
  }
}
