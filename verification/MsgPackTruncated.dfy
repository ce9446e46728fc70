/** What a reader makes of the first bytes of a stream, and of a stream that ends too early. */
module MsgPackTruncated {
  import opened MsgPack
  import opened MsgPackRoundTrip
  import opened Sequences

  /** The same outcome, with more bytes behind those that were not read. */
  function WithMore<T>(o: Outcome<T>, t: seq<byte>): Outcome<T> {
    match o
    case Parsed(v, rest) => Parsed(v, rest + t)
    case Failed(e) => Failed(e)
  }

  /** The stream ended before its value did. */
  predicate Truncated<T>(o: Outcome<T>) {
    o.Failed? && o.error.ParseError?
  }

  lemma TakeMemoryOfMore(s: seq<byte>, k: nat, t: seq<byte>)
    requires !Truncated(TakeMemory(s, k))
    ensures TakeMemory(s + t, k) == WithMore(TakeMemory(s, k), t)
  {
    assert (s + t)[..k] == s[..k] && (s + t)[k..] == s[k..] + t;
  }

  lemma TakeNumberOfMore(s: seq<byte>, k: nat, t: seq<byte>)
    requires !Truncated(TakeNumber(s, k))
    ensures TakeNumber(s + t, k) == WithMore(TakeNumber(s, k), t)
  {
    hide TakeMemory, Number;
    TakeMemoryOfMore(s, k, t);
  }

  lemma TakeLengthOfMore(s: seq<byte>, l: Length, t: seq<byte>)
    requires !Truncated(TakeLength(s, l))
    ensures TakeLength(s + t, l) == WithMore(TakeLength(s, l), t)
  {
    hide TakeNumber;
    if l.Follows? {
      TakeNumberOfMore(s, l.width, t);
    }
  }

  lemma TakeDataOfMore(s: seq<byte>, l: Length, t: seq<byte>)
    requires !Truncated(TakeData(s, l))
    ensures TakeData(s + t, l) == WithMore(TakeData(s, l), t)
  {
    hide TakeLength, TakeMemory;
    TakeLengthOfMore(s, l, t);
    if TakeLength(s, l).Parsed? {
      TakeMemoryOfMore(TakeLength(s, l).rest, TakeLength(s, l).value, t);
    }
  }

  lemma TakeExtensionOfMore(s: seq<byte>, n: nat, t: seq<byte>)
    requires !Truncated(TakeExtension(s, n))
    ensures TakeExtension(s + t, n) == WithMore(TakeExtension(s, n), t)
  {
    hide TakeMemory;
    assert s != [] ==> (s + t)[1..] == s[1..] + t;
    if s != [] {
      TakeMemoryOfMore(s[1..], n, t);
    }
  }

  lemma LeafOfMore(h: Header, s: seq<byte>, depth: nat, t: seq<byte>)
    requires 0 < depth <= MAX_DEPTH + 1 && !h.ArrayOf? && !h.MapOf? && !Truncated(ParseBody(h, s, depth))
    ensures ParseBody(h, s + t, depth) == WithMore(ParseBody(h, s, depth), t)
  {
    hide TakeMemory, TakeNumber, TakeLength, TakeData, TakeExtension, Span;
    match h
    case UintHeader(k) => TakeNumberOfMore(s, k, t);
    case IntHeader(k) => TakeNumberOfMore(s, k, t);
    case FloatHeader => TakeMemoryOfMore(s, 4, t);
    case DoubleHeader => TakeMemoryOfMore(s, 8, t);
    case StringOf(l) => TakeDataOfMore(s, l, t);
    case BinaryOf(l) => TakeDataOfMore(s, l, t);
    case ExtensionOf(l) =>
      TakeLengthOfMore(s, l, t);
      if TakeLength(s, l).Parsed? {
        TakeExtensionOfMore(TakeLength(s, l).rest, TakeLength(s, l).value, t);
      }
    case _ =>
  }

  /** Unless the stream has ended too early, what follows it changes nothing. */
  lemma {:induction false} ParseOfMore(s: seq<byte>, depth: nat, t: seq<byte>)
    requires !Truncated(Parse(s, depth))
    ensures Parse(s + t, depth) == WithMore(Parse(s, depth), t)
    decreases MAX_DEPTH + 1 - depth, 0
  {
    hide ParseBody, HeaderOf;
    if depth <= MAX_DEPTH {
      assert (s + t)[0] == s[0] && (s + t)[1..] == s[1..] + t;
      BodyOfMore(HeaderOf(s[0]), s[1..], depth + 1, t);
    }
  }

  lemma {:induction false} BodyOfMore(h: Header, s: seq<byte>, depth: nat, t: seq<byte>)
    requires 0 < depth <= MAX_DEPTH + 1 && !Truncated(ParseBody(h, s, depth))
    ensures ParseBody(h, s + t, depth) == WithMore(ParseBody(h, s, depth), t)
    decreases MAX_DEPTH + 1 - depth, 2
  {
    if h.ArrayOf? || h.MapOf? {
      hide TakeLength, ParseArray, ParseMap;
      TakeLengthOfMore(s, h.l, t);
      if TakeLength(s, h.l).Parsed? {
        if h.ArrayOf? {
          ArrayOfMore(TakeLength(s, h.l).rest, TakeLength(s, h.l).value, depth, [], t);
        } else {
          MapOfMore(TakeLength(s, h.l).rest, TakeLength(s, h.l).value, depth, [], t);
        }
      }
    } else {
      LeafOfMore(h, s, depth, t);
    }
  }

  lemma {:induction false} ArrayOfMore(s: seq<byte>, n: nat, depth: nat, es: seq<Pack>, t: seq<byte>)
    requires depth <= MAX_DEPTH + 1 && !Truncated(ParseArray(s, n, depth, es))
    ensures ParseArray(s + t, n, depth, es) == WithMore(ParseArray(s, n, depth, es), t)
    decreases MAX_DEPTH + 1 - depth, 1, n
  {
    hide Parse;
    if n > 0 {
      ParseOfMore(s, depth, t);
      if Parse(s, depth).Parsed? {
        ArrayOfMore(Parse(s, depth).rest, n - 1, depth, es + [Parse(s, depth).value], t);
      }
    }
  }

  lemma {:induction false} MapOfMore(s: seq<byte>, n: nat, depth: nat, es: seq<Entry>, t: seq<byte>)
    requires depth <= MAX_DEPTH + 1 && !Truncated(ParseMap(s, n, depth, es))
    ensures ParseMap(s + t, n, depth, es) == WithMore(ParseMap(s, n, depth, es), t)
    decreases MAX_DEPTH + 1 - depth, 1, n
  {
    hide ParseEntry, Emplaced;
    if n > 0 {
      EntryOfMore(s, depth, t);
      if ParseEntry(s, depth).Parsed? {
        MapOfMore(ParseEntry(s, depth).rest, n - 1, depth, Emplaced(es, ParseEntry(s, depth).value), t);
      }
    }
  }

  lemma {:induction false} EntryOfMore(s: seq<byte>, depth: nat, t: seq<byte>)
    requires depth <= MAX_DEPTH + 1 && !Truncated(ParseEntry(s, depth))
    ensures ParseEntry(s + t, depth) == WithMore(ParseEntry(s, depth), t)
    decreases MAX_DEPTH + 1 - depth, 1, 0
  {
    hide Parse;
    ParseOfMore(s, depth, t);
    if Parse(s, depth).Parsed? {
      ParseOfMore(Parse(s, depth).rest, depth, t);
    }
  }

  /** A value of which the last bytes are missing is a parse error, never another value. */
  lemma TruncatedIsRefused(v: Pack, depth: nat, k: nat)
    requires Writable(v) && depth + Height(v) <= MAX_DEPTH && k < |Bytes(v)|
    ensures Parse(Bytes(v)[..k], depth) == Failed(ParseError)
  {
    hide Parse, Bytes, Height, Writable, ReadBack;
    var s, t := Bytes(v)[..k], Bytes(v)[k..];
    assert s + t == Bytes(v) + [];
    ReadsWhatWasWritten(v, depth, []);
    if !Truncated(Parse(s, depth)) {
      ParseOfMore(s, depth, t);
    }
  }
}
