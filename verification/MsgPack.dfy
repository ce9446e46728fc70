/** MessagePack values, the bytes they are written as, and what a reader makes of bytes. */
module MsgPack {
  import opened Sequences

  type byte = b: int | 0 <= b < 256

  /** A map is the list of its entries in the order in which it is iterated. */
  datatype Pack =
    | Nil
    | Bool(b: bool)
    | Int(i: int)
    | Uint(n: nat)
    | Float(memory: seq<byte>)
    | Double(memory: seq<byte>)
    | String(chars: seq<byte>)
    | Binary(data: seq<byte>)
    | Array(elements: seq<Pack>)
    | Map(entries: seq<Entry>)
    | Extension(kind: byte, data: seq<byte>)

  datatype Entry = Entry(key: Pack, value: Pack)

  const MAX_DEPTH: nat := 128
  const MAX_UINT32: nat := 0xffff_ffff
  const MAX_INT64: int := 0x7fff_ffff_ffff_ffff
  const MIN_INT64: int := -0x8000_0000_0000_0000
  const MAX_UINT64: int := 0xffff_ffff_ffff_ffff

  // ----- numbers in memory

  /** The k bytes of a number in memory, least significant first. */
  function Memory(n: nat, k: nat): (s: seq<byte>)
    ensures |s| == k
  {
    if k == 0 then [] else [n % 256] + Memory(n / 256, k - 1)
  }

  function Number(memory: seq<byte>): nat {
    if memory == [] then 0 else memory[0] + 256 * Number(memory[1..])
  }

  function Span(k: nat): (n: nat)
    ensures n > 0
  {
    if k == 0 then 1 else 256 * Span(k - 1)
  }

  /** A number as it is written: most significant byte first. */
  function Wire(n: nat, k: nat): (s: seq<byte>)
    ensures |s| == k
  {
    Reversed(Memory(n, k))
  }

  // ----- the bytes of a value

  function UintBytes(n: nat): (s: seq<byte>)
    ensures s != []
  {
    if n < 128 then [n]
    else if n < 0x100 then [0xcc] + Wire(n, 1)
    else if n < 0x1_0000 then [0xcd] + Wire(n, 2)
    else if n < 0x1_0000_0000 then [0xce] + Wire(n, 4)
    else [0xcf] + Wire(n, 8)
  }

  /** Negative numbers are written in two's complement. */
  function IntBytes(i: int): (s: seq<byte>)
    requires i >= MIN_INT64
    ensures s != []
  {
    if i >= 0 then UintBytes(i)
    else if i >= -32 then [0x100 + i]
    else if i >= -0x80 then [0xd0] + Wire(0x100 + i, 1)
    else if i >= -0x8000 then [0xd1] + Wire(0x1_0000 + i, 2)
    else if i >= -0x8000_0000 then [0xd2] + Wire(0x1_0000_0000 + i, 4)
    else [0xd3] + Wire(0x1_0000_0000_0000_0000 + i, 8)
  }

  function StringHeader(n: nat): (s: seq<byte>)
    ensures s != []
  {
    if n < 32 then [0xa0 + n]
    else if n < 0x100 then [0xd9] + Wire(n, 1)
    else if n < 0x1_0000 then [0xda] + Wire(n, 2)
    else [0xdb] + Wire(n, 4)
  }

  function BinaryHeader(n: nat): (s: seq<byte>)
    ensures s != []
  {
    if n < 0x100 then [0xc4] + Wire(n, 1)
    else if n < 0x1_0000 then [0xc5] + Wire(n, 2)
    else [0xc6] + Wire(n, 4)
  }

  function ArrayHeader(n: nat): (s: seq<byte>)
    ensures s != []
  {
    if n <= 15 then [0x90 + n]
    else if n < 0x1_0000 then [0xdc] + Wire(n, 2)
    else [0xdd] + Wire(n, 4)
  }

  function MapHeader(n: nat): (s: seq<byte>)
    ensures s != []
  {
    if n <= 15 then [0x80 + n]
    else if n < 0x1_0000 then [0xde] + Wire(n, 2)
    else [0xdf] + Wire(n, 4)
  }

  /** Other than elsewhere, the largest size of each width is left to the next wider one. */
  function ExtensionHeader(n: nat): (s: seq<byte>)
    ensures s != []
  {
    if n == 1 then [0xd4]
    else if n == 2 then [0xd5]
    else if n == 4 then [0xd6]
    else if n == 8 then [0xd7]
    else if n == 16 then [0xd8]
    else if n < 0xff then [0xc7] + Wire(n, 1)
    else if n < 0xffff then [0xc8] + Wire(n, 2)
    else [0xc9] + Wire(n, 4)
  }

  /** The numbers are in the range of their types, and the sizes pass the assertions of the writer. */
  predicate Writable(v: Pack)
    decreases v, 0
  {
    match v
    case Nil => true
    case Bool(_) => true
    case Int(i) => MIN_INT64 <= i <= MAX_INT64
    case Uint(n) => n <= MAX_UINT64
    case Float(m) => |m| == 4
    case Double(m) => |m| == 8
    case String(s) => |s| <= MAX_UINT32
    case Binary(d) => |d| <= MAX_UINT32
    case Array(es) => |es| <= MAX_UINT32 && AllWritable(es)
    case Map(es) => |es| <= MAX_UINT32 && EntriesWritable(es)
    case Extension(_, d) => |d| < MAX_UINT32
  }

  predicate AllWritable(es: seq<Pack>)
    decreases es, 1
  {
    es != [] ==> Writable(es[0]) && AllWritable(es[1..])
  }

  predicate EntriesWritable(es: seq<Entry>)
    decreases es, 1
  {
    es != [] ==> EntryWritable(es[0]) && EntriesWritable(es[1..])
  }

  predicate EntryWritable(e: Entry)
    decreases e, 1
  {
    Writable(e.key) && Writable(e.value)
  }

  /** The bytes of strings and of binary data are reversed, as those of numbers are. */
  function Bytes(v: Pack): (s: seq<byte>)
    requires Writable(v)
    decreases v, 0
  {
    match v
    case Nil => [0xc0]
    case Bool(b) => [if b then 0xc3 else 0xc2]
    case Int(i) => IntBytes(i)
    case Uint(n) => UintBytes(n)
    case Float(m) => [0xca] + Reversed(m)
    case Double(m) => [0xcb] + Reversed(m)
    case String(s) => StringHeader(|s|) + Reversed(s)
    case Binary(d) => BinaryHeader(|d|) + Reversed(d)
    case Array(es) => ArrayHeader(|es|) + AllBytes(es)
    case Map(es) => MapHeader(|es|) + EntriesBytes(es)
    case Extension(k, d) => ExtensionHeader(|d|) + [k] + Reversed(d)
  }

  function AllBytes(es: seq<Pack>): (s: seq<byte>)
    requires AllWritable(es)
    decreases es, 1
  {
    if es == [] then [] else Bytes(es[0]) + AllBytes(es[1..])
  }

  function EntriesBytes(es: seq<Entry>): (s: seq<byte>)
    requires EntriesWritable(es)
    decreases es, 1
  {
    if es == [] then [] else EntryBytes(es[0]) + EntriesBytes(es[1..])
  }

  function EntryBytes(e: Entry): (s: seq<byte>)
    requires EntryWritable(e)
    decreases e, 1
  {
    Bytes(e.key) + Bytes(e.value)
  }

  /** How deep a value is nested. */
  function Height(v: Pack): nat
    decreases v, 0
  {
    match v
    case Array(es) => HeightOfAll(es)
    case Map(es) => HeightOfEntries(es)
    case _ => 0
  }

  function HeightOfAll(es: seq<Pack>): nat
    decreases es, 1
  {
    if es == [] then 0 else Max(1 + Height(es[0]), HeightOfAll(es[1..]))
  }

  function HeightOfEntries(es: seq<Entry>): nat
    decreases es, 1
  {
    if es == [] then 0 else Max(1 + HeightOfEntry(es[0]), HeightOfEntries(es[1..]))
  }

  function HeightOfEntry(e: Entry): nat
    decreases e, 1
  {
    Max(Height(e.key), Height(e.value))
  }

  function Max(a: nat, b: nat): nat {
    if a < b then b else a
  }

  // ----- the order of values

  datatype Order = Before | Same | After {
    function Flipped(): Order {
      match this
      case Before => After
      case Same => Same
      case After => Before
    }

    /** The order by this and, if it does not decide, by another criterion. */
    function Then(other: Order): Order {
      if Same? then other else this
    }
  }

  function CompareInts(a: int, b: int): Order {
    if a < b then Before else if a == b then Same else After
  }

  /** The place of a type in the variant. */
  function Index(v: Pack): nat {
    match v
    case Nil => 0
    case Bool(_) => 1
    case Int(_) => 2
    case Uint(_) => 3
    case Float(_) => 4
    case Double(_) => 5
    case String(_) => 6
    case Binary(_) => 7
    case Array(_) => 8
    case Map(_) => 9
    case Extension(_, _) => 10
  }

  /** The order of floating point numbers that are not NaN: sign and magnitude, and both zeros are the same. */
  function RealRank(memory: seq<byte>): int {
    var n, half := Number(memory), Span(|memory|) / 2;
    if n < half then n else half - n
  }

  /** Characters of strings are compared as unsigned bytes, those of binary data as signed ones. */
  function CompareBytes(s: seq<byte>, t: seq<byte>, signed: bool): Order {
    if s == [] then if t == [] then Same else Before
    else if t == [] then After
    else CompareInts(ByteRank(s[0], signed), ByteRank(t[0], signed)).Then(CompareBytes(s[1..], t[1..], signed))
  }

  function ByteRank(b: byte, signed: bool): int {
    if signed && b >= 128 then b - 256 else b
  }

  /** operator<: by the types, and within one type by the values; integers of different types are never the same. */
  function Compare(v: Pack, w: Pack): Order
    decreases v, 0
  {
    if Index(v) != Index(w) then CompareInts(Index(v), Index(w))
    else
      match v
      case Nil => Same
      case Bool(b) => CompareInts(if b then 1 else 0, if w.b then 1 else 0)
      case Int(i) => CompareInts(i, w.i)
      case Uint(n) => CompareInts(n, w.n)
      case Float(m) => CompareInts(RealRank(m), RealRank(w.memory))
      case Double(m) => CompareInts(RealRank(m), RealRank(w.memory))
      case String(s) => CompareBytes(s, w.chars, false)
      case Binary(d) => CompareBytes(d, w.data, true)
      case Array(es) => CompareAll(es, w.elements)
      case Map(es) => CompareEntries(es, w.entries)
      case Extension(k, d) => CompareInts(k, w.kind).Then(CompareBytes(d, w.data, true))
  }

  function CompareAll(es: seq<Pack>, fs: seq<Pack>): Order
    decreases es, 1
  {
    if es == [] then if fs == [] then Same else Before
    else if fs == [] then After
    else Compare(es[0], fs[0]).Then(CompareAll(es[1..], fs[1..]))
  }

  function CompareEntries(es: seq<Entry>, fs: seq<Entry>): Order
    decreases es, 1
  {
    if es == [] then if fs == [] then Same else Before
    else if fs == [] then After
    else CompareEntry(es[0], fs[0]).Then(CompareEntries(es[1..], fs[1..]))
  }

  function CompareEntry(e: Entry, f: Entry): Order
    decreases e, 1
  {
    Compare(e.key, f.key).Then(Compare(e.value, f.value))
  }

  /** Some entry has a key that is the same as this one. */
  predicate HasKey(es: seq<Entry>, key: Pack) {
    es != [] && (Compare(es[0].key, key).Same? || HasKey(es[1..], key))
  }

  /** emplace of an ordered map: an entry with a new key is put before all larger ones, any other is dropped. */
  function Emplaced(es: seq<Entry>, e: Entry): seq<Entry> {
    if HasKey(es, e.key) then es else Inserted(es, e)
  }

  function Inserted(es: seq<Entry>, e: Entry): seq<Entry> {
    if es == [] || Compare(e.key, es[0].key).Before? then [e] + es else [es[0]] + Inserted(es[1..], e)
  }

  // ----- what a value means

  /** Integers are compared numerically and maps without regard to the order of their entries. */
  datatype Meaning =
    | Whole(n: int)
    | Real(size: nat, rank: int)
    | Plain(v: Pack)
    | List(list: seq<Meaning>)
    | Mapping(pairs: multiset<(Meaning, Meaning)>)

  function MeaningOf(v: Pack): Meaning
    decreases v, 0
  {
    match v
    case Int(i) => Whole(i)
    case Uint(n) => Whole(n)
    case Float(m) => Real(4, RealRank(m))
    case Double(m) => Real(8, RealRank(m))
    case Array(es) => List(MeaningOfAll(es))
    case Map(es) => Mapping(MeaningOfEntries(es))
    case _ => Plain(v)
  }

  function MeaningOfAll(es: seq<Pack>): seq<Meaning>
    decreases es, 1
  {
    if es == [] then [] else [MeaningOf(es[0])] + MeaningOfAll(es[1..])
  }

  function MeaningOfEntries(es: seq<Entry>): multiset<(Meaning, Meaning)>
    decreases es, 1
  {
    if es == [] then multiset{}
    else multiset{MeaningOfEntry(es[0])} + MeaningOfEntries(es[1..])
  }

  function MeaningOfEntry(e: Entry): (Meaning, Meaning)
    decreases e, 1
  {
    (MeaningOf(e.key), MeaningOf(e.value))
  }

  // ----- reading

  datatype Error = ParseError | RecursionDepthExceeded | AssertionFailed

  datatype Outcome<T> = Parsed(value: T, rest: seq<byte>) | Failed(error: Error)

  /** A size is part of the first byte, or follows it as a number of this width. */
  datatype Length = Given(n: nat) | Follows(width: nat)

  /** What the first byte of a value says. */
  datatype Header =
    | NilHeader
    | BoolHeader(b: bool)
    | SmallUint(n: nat)
    | SmallInt(i: int)
    | UintHeader(width: nat)
    | IntHeader(width: nat)
    | FloatHeader
    | DoubleHeader
    | StringOf(l: Length)
    | BinaryOf(l: Length)
    | ArrayOf(l: Length)
    | MapOf(l: Length)
    | ExtensionOf(l: Length)
    | Unused

  function HeaderOf(b: byte): Header {
    if b == 0xc0 then NilHeader
    else if b == 0xc2 then BoolHeader(false)
    else if b == 0xc3 then BoolHeader(true)
    else if b == 0xcc then UintHeader(1)
    else if b == 0xcd then UintHeader(2)
    else if b == 0xce then UintHeader(4)
    else if b == 0xcf then UintHeader(8)
    else if b == 0xd0 then IntHeader(1)
    else if b == 0xd1 then IntHeader(2)
    else if b == 0xd2 then IntHeader(4)
    else if b == 0xd3 then IntHeader(8)
    else if b == 0xca then FloatHeader
    else if b == 0xcb then DoubleHeader
    else if b == 0xd9 then StringOf(Follows(1))
    else if b == 0xda then StringOf(Follows(2))
    else if b == 0xdb then StringOf(Follows(4))
    else if b == 0xc4 then BinaryOf(Follows(1))
    else if b == 0xc5 then BinaryOf(Follows(2))
    else if b == 0xc6 then BinaryOf(Follows(4))
    else if b == 0xdc then ArrayOf(Follows(2))
    else if b == 0xdd then ArrayOf(Follows(4))
    else if b == 0xde then MapOf(Follows(2))
    else if b == 0xdf then MapOf(Follows(4))
    else if b == 0xd4 then ExtensionOf(Given(1))
    else if b == 0xd5 then ExtensionOf(Given(2))
    else if b == 0xd6 then ExtensionOf(Given(4))
    else if b == 0xd7 then ExtensionOf(Given(8))
    else if b == 0xd8 then ExtensionOf(Given(16))
    else if b == 0xc7 then ExtensionOf(Follows(1))
    else if b == 0xc8 then ExtensionOf(Follows(2))
    else if b == 0xc9 then ExtensionOf(Follows(4))
    else if b < 0x80 then SmallUint(b)
    else if b >= 0xe0 then SmallInt(b - 0x100)
    else if 0xa0 <= b < 0xc0 then StringOf(Given(b - 0xa0))
    else if 0x90 <= b < 0xa0 then ArrayOf(Given(b - 0x90))
    else if 0x80 <= b < 0x90 then MapOf(Given(b - 0x80))
    else Unused
  }

  function Signed(n: nat, k: nat): int {
    if 2 * n < Span(k) then n else n - Span(k)
  }

  /** The next k bytes, back in the order in which they were in memory. */
  function TakeMemory(s: seq<byte>, k: nat): (r: Outcome<seq<byte>>)
    ensures r.Parsed? <==> k <= |s|
    ensures r.Parsed? ==> |r.value| == k && |r.rest| == |s| - k
  {
    if |s| < k then Failed(ParseError) else Parsed(Reversed(s[..k]), s[k..])
  }

  function TakeNumber(s: seq<byte>, k: nat): (r: Outcome<nat>)
    ensures r.Parsed? ==> |r.rest| <= |s|
  {
    match TakeMemory(s, k)
    case Parsed(memory, rest) => Parsed(Number(memory), rest)
    case Failed(e) => Failed(e)
  }

  function TakeLength(s: seq<byte>, l: Length): (r: Outcome<nat>)
    ensures r.Parsed? ==> |r.rest| <= |s|
  {
    match l
    case Given(n) => Parsed(n, s)
    case Follows(k) => TakeNumber(s, k)
  }

  function TakeData(s: seq<byte>, l: Length): Outcome<seq<byte>> {
    match TakeLength(s, l)
    case Parsed(n, rest) => TakeMemory(rest, n)
    case Failed(e) => Failed(e)
  }

  function TakeExtension(s: seq<byte>, n: nat): Outcome<Pack> {
    if s == [] then Failed(ParseError)
    else
      match TakeMemory(s[1..], n)
      case Parsed(data, rest) => Parsed(Extension(s[0], data), rest)
      case Failed(e) => Failed(e)
  }

  /** What _deserialize makes of the bytes s. */
  function Parse(s: seq<byte>, depth: nat): Outcome<Pack>
    decreases MAX_DEPTH + 1 - depth, 0
  {
    if depth > MAX_DEPTH then Failed(RecursionDepthExceeded)
    else if s == [] then Failed(ParseError)
    else ParseBody(HeaderOf(s[0]), s[1..], depth + 1)
  }

  /** The rest of a value with this header; depth is that of what it contains. */
  function ParseBody(h: Header, s: seq<byte>, depth: nat): Outcome<Pack>
    requires 0 < depth <= MAX_DEPTH + 1
    decreases MAX_DEPTH + 1 - depth, 2
  {
    match h
    case NilHeader => Parsed(Nil, s)
    case BoolHeader(b) => Parsed(Bool(b), s)
    case SmallUint(n) => Parsed(Uint(n), s)
    case SmallInt(i) => Parsed(Int(i), s)
    case UintHeader(k) =>
      (match TakeNumber(s, k)
       case Parsed(n, rest) => Parsed(Uint(n), rest)
       case Failed(e) => Failed(e))
    case IntHeader(k) =>
      (match TakeNumber(s, k)
       case Parsed(n, rest) => Parsed(Int(Signed(n, k)), rest)
       case Failed(e) => Failed(e))
    case FloatHeader =>
      (match TakeMemory(s, 4)
       case Parsed(m, rest) => Parsed(Float(m), rest)
       case Failed(e) => Failed(e))
    case DoubleHeader =>
      (match TakeMemory(s, 8)
       case Parsed(m, rest) => Parsed(Double(m), rest)
       case Failed(e) => Failed(e))
    case StringOf(l) =>
      (match TakeData(s, l)
       case Parsed(data, rest) => Parsed(String(data), rest)
       case Failed(e) => Failed(e))
    case BinaryOf(l) =>
      (match TakeData(s, l)
       case Parsed(data, rest) => Parsed(Binary(data), rest)
       case Failed(e) => Failed(e))
    case ArrayOf(l) =>
      (match TakeLength(s, l)
       case Parsed(n, rest) => ParseArray(rest, n, depth, [])
       case Failed(e) => Failed(e))
    case MapOf(l) =>
      (match TakeLength(s, l)
       case Parsed(n, rest) => ParseMap(rest, n, depth, [])
       case Failed(e) => Failed(e))
    case ExtensionOf(l) =>
      (match TakeLength(s, l)
       case Parsed(n, rest) => TakeExtension(rest, n)
       case Failed(e) => Failed(e))
    case Unused => Failed(AssertionFailed)
  }

  /** n more elements of an array that has the elements es already. */
  function ParseArray(s: seq<byte>, n: nat, depth: nat, es: seq<Pack>): Outcome<Pack>
    requires depth <= MAX_DEPTH + 1
    decreases MAX_DEPTH + 1 - depth, 1, n
  {
    if n == 0 then Parsed(Array(es), s)
    else
      match Parse(s, depth)
      case Parsed(e, rest) => ParseArray(rest, n - 1, depth, es + [e])
      case Failed(e) => Failed(e)
  }

  /** n more entries of a map that has the entries es already. */
  function ParseMap(s: seq<byte>, n: nat, depth: nat, es: seq<Entry>): Outcome<Pack>
    requires depth <= MAX_DEPTH + 1
    decreases MAX_DEPTH + 1 - depth, 1, n
  {
    if n == 0 then Parsed(Map(es), s)
    else
      match ParseEntry(s, depth)
      case Parsed(e, rest) => ParseMap(rest, n - 1, depth, Emplaced(es, e))
      case Failed(e) => Failed(e)
  }

  /** The key of an entry and then its value. */
  function ParseEntry(s: seq<byte>, depth: nat): Outcome<Entry>
    requires depth <= MAX_DEPTH + 1
    decreases MAX_DEPTH + 1 - depth, 1, 0
  {
    match Parse(s, depth)
    case Failed(e) => Failed(e)
    case Parsed(key, afterKey) =>
      match Parse(afterKey, depth)
      case Failed(e) => Failed(e)
      case Parsed(value, rest) => Parsed(Entry(key, value), rest)
  }

  /** What a value is read back as: no integer keeps its sign type, and of equal keys only the first is kept. */
  function ReadBack(v: Pack): Pack
    decreases v, 0
  {
    match v
    case Int(i) => if i >= 0 then Uint(i) else v
    case Array(es) => Array(ReadBackAll(es))
    case Map(es) => Map(ReadBackEntries([], es))
    case _ => v
  }

  function ReadBackAll(es: seq<Pack>): seq<Pack>
    decreases es, 1
  {
    if es == [] then [] else [ReadBack(es[0])] + ReadBackAll(es[1..])
  }

  function ReadBackEntries(front: seq<Entry>, es: seq<Entry>): seq<Entry>
    decreases es, 1
  {
    if es == [] then front
    else ReadBackEntries(Emplaced(front, ReadBackEntry(es[0])), es[1..])
  }

  function ReadBackEntry(e: Entry): Entry
    decreases e, 1
  {
    Entry(ReadBack(e.key), ReadBack(e.value))
  }
}
