/** The writer and the reader of MessagePack, byte by byte on streams; the machine is little-endian. */
module MsgPackStream {
  import opened MsgPack
  import opened MsgPackRoundTrip
  import opened Sequences

  class OutStream {
    var bytes: seq<byte>

    constructor ()
      ensures bytes == []
    {
      bytes := [];
    }

    method Put(b: byte)
      modifies this
      ensures bytes == old(bytes) + [b]
    {
      bytes := bytes + [b];
    }
  }

  /** write_data: the bytes of memory, last to first. */
  method WriteData(memory: seq<byte>, os: OutStream)
    modifies os
    ensures os.bytes == old(os.bytes) + Reversed(memory)
  {
    hide *;
    var i := |memory|;
    assert memory[..i] == memory;
    while i > 0
      invariant 0 <= i <= |memory|
      invariant os.bytes + Reversed(memory[..i]) == old(os.bytes) + Reversed(memory)
    {
      assert memory[..i] == memory[..i - 1] + [memory[i - 1]];
      ReversedOfAppend(memory[..i - 1], memory[i - 1]);
      Regrouped(os.bytes, [memory[i - 1]], Reversed(memory[..i - 1]));
      os.Put(memory[i - 1]);
      i := i - 1;
    }
    NothingReversed();
    assert memory[..0] == [] && os.bytes + [] == os.bytes;
  }

  lemma NothingReversed()
    ensures Reversed<byte>([]) == []
  {
  }

  /** write_data with a header byte, of a number of k bytes. */
  method WriteNumber(header: byte, n: nat, k: nat, os: OutStream)
    modifies os
    ensures os.bytes == old(os.bytes) + ([header] + Wire(n, k))
  {
    os.Put(header);
    WriteData(Memory(n, k), os);
  }

  method WriteUint(n: nat, os: OutStream)
    requires n <= MAX_UINT64
    modifies os
    ensures os.bytes == old(os.bytes) + UintBytes(n)
  {
    hide Wire;
    if n < 128 {
      os.Put(n);
    } else if n <= 0xff {
      WriteNumber(0xcc, n, 1, os);
    } else if n <= 0xffff {
      WriteNumber(0xcd, n, 2, os);
    } else if n <= 0xffff_ffff {
      WriteNumber(0xce, n, 4, os);
    } else {
      WriteNumber(0xcf, n, 8, os);
    }
  }

  /** Casting to a narrower unsigned type is adding the range of that type to a negative number. */
  method WriteInt(i: int, os: OutStream)
    requires MIN_INT64 <= i <= MAX_INT64
    modifies os
    ensures os.bytes == old(os.bytes) + IntBytes(i)
  {
    hide Wire, UintBytes;
    if i >= 0 {
      WriteUint(i, os);
    } else if i >= -32 {
      os.Put(0x100 + i);
    } else if i >= -0x80 {
      WriteNumber(0xd0, 0x100 + i, 1, os);
    } else if i >= -0x8000 {
      WriteNumber(0xd1, 0x1_0000 + i, 2, os);
    } else if i >= -0x8000_0000 {
      WriteNumber(0xd2, 0x1_0000_0000 + i, 4, os);
    } else {
      WriteNumber(0xd3, 0x1_0000_0000_0000_0000 + i, 8, os);
    }
  }

  method WriteString(s: seq<byte>, os: OutStream)
    requires |s| <= MAX_UINT32
    modifies os
    ensures os.bytes == old(os.bytes) + (StringHeader(|s|) + Reversed(s))
  {
    hide Wire, Reversed;
    var size := |s|;
    if size < 32 {
      os.Put(0xa0 + size);
    } else if size <= 0xff {
      WriteNumber(0xd9, size, 1, os);
    } else if size <= 0xffff {
      WriteNumber(0xda, size, 2, os);
    } else {
      WriteNumber(0xdb, size, 4, os);
    }
    assert os.bytes == old(os.bytes) + StringHeader(size);
    hide StringHeader;
    WriteData(s, os);
    Regrouped(old(os.bytes), StringHeader(size), Reversed(s));
  }

  method WriteBinary(d: seq<byte>, os: OutStream)
    requires |d| <= MAX_UINT32
    modifies os
    ensures os.bytes == old(os.bytes) + (BinaryHeader(|d|) + Reversed(d))
  {
    hide Wire, Reversed;
    var size := |d|;
    if size <= 0xff {
      WriteNumber(0xc4, size, 1, os);
    } else if size <= 0xffff {
      WriteNumber(0xc5, size, 2, os);
    } else {
      WriteNumber(0xc6, size, 4, os);
    }
    assert os.bytes == old(os.bytes) + BinaryHeader(size);
    hide BinaryHeader;
    WriteData(d, os);
    Regrouped(old(os.bytes), BinaryHeader(size), Reversed(d));
  }

  method WriteExtension(kind: byte, d: seq<byte>, os: OutStream)
    requires |d| < MAX_UINT32
    modifies os
    ensures os.bytes == old(os.bytes) + (ExtensionHeader(|d|) + [kind] + Reversed(d))
  {
    WriteExtensionHeader(|d|, os);
    hide *;
    os.Put(kind);
    WriteData(d, os);
    Regrouped(old(os.bytes), ExtensionHeader(|d|), [kind]);
    Regrouped(old(os.bytes), ExtensionHeader(|d|) + [kind], Reversed(d));
  }

  method WriteExtensionHeader(size: nat, os: OutStream)
    modifies os
    ensures os.bytes == old(os.bytes) + ExtensionHeader(size)
  {
    hide Wire;
    if size == 1 {
      os.Put(0xd4);
    } else if size == 2 {
      os.Put(0xd5);
    } else if size == 4 {
      os.Put(0xd6);
    } else if size == 8 {
      os.Put(0xd7);
    } else if size == 16 {
      os.Put(0xd8);
    } else if size < 0xff {
      WriteNumber(0xc7, size, 1, os);
    } else if size < 0xffff {
      WriteNumber(0xc8, size, 2, os);
    } else {
      WriteNumber(0xc9, size, 4, os);
    }
  }

  lemma ElementsSplit(es: seq<Pack>, i: nat)
    requires i < |es| && AllWritable(es[i..])
    ensures Writable(es[i]) && AllWritable(es[i + 1..])
    ensures AllBytes(es[i..]) == Bytes(es[i]) + AllBytes(es[i + 1..])
    ensures HeightOfAll(es[i..]) == Max(1 + Height(es[i]), HeightOfAll(es[i + 1..]))
  {
    assert es[i..][1..] == es[i + 1..];
  }

  lemma NoElements(es: seq<Pack>)
    ensures es[|es|..] == [] && AllWritable([]) && AllBytes([]) == [] && HeightOfAll([]) == 0
  {
  }

  lemma EntriesSplit(es: seq<Entry>, i: nat)
    requires i < |es| && EntriesWritable(es[i..])
    ensures EntryWritable(es[i]) && EntriesWritable(es[i + 1..])
    ensures EntriesBytes(es[i..]) == EntryBytes(es[i]) + EntriesBytes(es[i + 1..])
    ensures HeightOfEntries(es[i..]) == Max(1 + HeightOfEntry(es[i]), HeightOfEntries(es[i + 1..]))
  {
    assert es[i..][1..] == es[i + 1..];
  }

  lemma NoEntries(es: seq<Entry>)
    ensures es[|es|..] == [] && EntriesWritable([]) && EntriesBytes([]) == [] && HeightOfEntries([]) == 0
  {
  }

  lemma MaxFits(a: nat, b: nat, bound: int)
    ensures Max(a, b) <= bound <==> a <= bound && b <= bound
  {
  }

  method WriteArrayHeader(size: nat, os: OutStream)
    modifies os
    ensures os.bytes == old(os.bytes) + ArrayHeader(size)
  {
    hide Wire;
    if size <= 15 {
      os.Put(0x90 + size);
    } else if size <= 0xffff {
      WriteNumber(0xdc, size, 2, os);
    } else {
      WriteNumber(0xdd, size, 4, os);
    }
  }

  method WriteMapHeader(size: nat, os: OutStream)
    modifies os
    ensures os.bytes == old(os.bytes) + MapHeader(size)
  {
    hide Wire;
    if size <= 15 {
      os.Put(0x80 + size);
    } else if size <= 0xffff {
      WriteNumber(0xde, size, 2, os);
    } else {
      WriteNumber(0xdf, size, 4, os);
    }
  }

  /** write_array; depth is that of the elements. If one of them is too deep, the rest is not written. */
  method WriteArray(depth: nat, es: seq<Pack>, os: OutStream) returns (ok: bool)
    requires AllWritable(es) && depth <= MAX_DEPTH + 1
    modifies os
    ensures ok <==> depth + HeightOfAll(es) <= MAX_DEPTH + 1
    ensures ok ==> os.bytes == old(os.bytes) + (ArrayHeader(|es|) + AllBytes(es))
    decreases es, 1
  {
    hide *;
    ghost var bytes := old(os.bytes) + ArrayHeader(|es|) + AllBytes(es);
    WriteArrayHeader(|es|, os);
    assert es[0..] == es;
    for i := 0 to |es|
      invariant AllWritable(es[i..]) && os.bytes + AllBytes(es[i..]) == bytes
      invariant depth + HeightOfAll(es) <= MAX_DEPTH + 1 <==> depth + HeightOfAll(es[i..]) <= MAX_DEPTH + 1
    {
      ElementsSplit(es, i);
      MaxFits(1 + Height(es[i]), HeightOfAll(es[i + 1..]), MAX_DEPTH + 1 - depth);
      Regrouped(os.bytes, Bytes(es[i]), AllBytes(es[i + 1..]));
      ok := Serialize(es[i], os, depth);
      if !ok {
        return;
      }
    }
    NoElements(es);
    Regrouped(old(os.bytes), ArrayHeader(|es|), AllBytes(es));
    assert os.bytes + [] == os.bytes;
    ok := true;
  }

  /** write_map; depth is that of the keys and values. */
  method WriteMap(depth: nat, es: seq<Entry>, os: OutStream) returns (ok: bool)
    requires EntriesWritable(es) && depth <= MAX_DEPTH + 1
    modifies os
    ensures ok <==> depth + HeightOfEntries(es) <= MAX_DEPTH + 1
    ensures ok ==> os.bytes == old(os.bytes) + (MapHeader(|es|) + EntriesBytes(es))
    decreases es, 1
  {
    hide *;
    ghost var bytes := old(os.bytes) + MapHeader(|es|) + EntriesBytes(es);
    WriteMapHeader(|es|, os);
    assert es[0..] == es;
    for i := 0 to |es|
      invariant EntriesWritable(es[i..]) && os.bytes + EntriesBytes(es[i..]) == bytes
      invariant depth + HeightOfEntries(es) <= MAX_DEPTH + 1 <==> depth + HeightOfEntries(es[i..]) <= MAX_DEPTH + 1
    {
      EntriesSplit(es, i);
      MaxFits(1 + HeightOfEntry(es[i]), HeightOfEntries(es[i + 1..]), MAX_DEPTH + 1 - depth);
      Regrouped(os.bytes, EntryBytes(es[i]), EntriesBytes(es[i + 1..]));
      ok := WriteEntry(depth, es[i], os);
      if !ok {
        return;
      }
    }
    NoEntries(es);
    Regrouped(old(os.bytes), MapHeader(|es|), EntriesBytes(es));
    assert os.bytes + [] == os.bytes;
    ok := true;
  }

  method WriteEntry(depth: nat, e: Entry, os: OutStream) returns (ok: bool)
    requires EntryWritable(e)
    modifies os
    ensures ok <==> depth + HeightOfEntry(e) <= MAX_DEPTH
    ensures ok ==> os.bytes == old(os.bytes) + EntryBytes(e)
    decreases e, 3
  {
    hide Bytes, Height, Writable;
    ok := Serialize(e.key, os, depth);
    if ok {
      ok := Serialize(e.value, os, depth);
      Regrouped(old(os.bytes), Bytes(e.key), Bytes(e.value));
    }
  }

  /** _serialize; without success, an exception was thrown for too deep nesting. */
  method Serialize(v: Pack, os: OutStream, depth: nat) returns (ok: bool)
    requires Writable(v)
    modifies os
    ensures ok <==> depth + Height(v) <= MAX_DEPTH
    ensures ok ==> os.bytes == old(os.bytes) + Bytes(v)
    decreases v, 2
  {
    hide AllWritable, EntriesWritable, HeightOfAll, HeightOfEntries, AllBytes, EntriesBytes, Reversed;
    hide ArrayHeader, MapHeader, StringHeader, BinaryHeader, ExtensionHeader, UintBytes, IntBytes;
    if depth > MAX_DEPTH {
      return false;
    }
    ok := true;
    match v
    case Nil => os.Put(0xc0);
    case Bool(b) => os.Put(if b then 0xc3 else 0xc2);
    case Int(i) => WriteInt(i, os);
    case Uint(n) => WriteUint(n, os);
    case Float(m) => os.Put(0xca); WriteData(m, os); Regrouped(old(os.bytes), [0xca], Reversed(m));
    case Double(m) => os.Put(0xcb); WriteData(m, os); Regrouped(old(os.bytes), [0xcb], Reversed(m));
    case String(s) => WriteString(s, os);
    case Binary(d) => WriteBinary(d, os);
    case Array(es) => ok := WriteArray(depth + 1, es, os);
    case Map(es) => ok := WriteMap(depth + 1, es, os);
    case Extension(k, d) => WriteExtension(k, d, os);
  }

  // ----- the reader

  class InStream {
    var bytes: seq<byte>
    var good: bool

    constructor (bytes: seq<byte>)
      ensures this.bytes == bytes && good
    {
      this.bytes := bytes;
      good := true;
    }

    /** The bytes that can still be read; none, once the stream has failed. */
    function Unread(): seq<byte>
      reads this
    {
      if good then bytes else []
    }

    /** get: without success the stream fails, and the result means nothing. */
    method Get() returns (b: byte)
      modifies this
      ensures good <==> old(Unread()) != []
      ensures good ==> old(Unread()) == [b] + bytes
    {
      if good && bytes != [] {
        b := bytes[0];
        bytes := bytes[1..];
      } else {
        good := false;
        b := *;
      }
    }
  }

  /** What was read, or the exception that was thrown. */
  datatype Result<T> = Ok(value: T) | Throw(error: Error)

  /** The reader agrees with what is expected: the same value and the same unread bytes, or the same exception. */
  ghost predicate Agrees<T>(r: Result<T>, stream: InStream, expected: Outcome<T>)
    reads stream
  {
    match expected
    case Parsed(v, rest) => r == Ok(v) && stream.good && stream.bytes == rest
    case Failed(e) => r == Throw(e)
  }

  function TakeChar(s: seq<byte>): Outcome<byte> {
    if s == [] then Failed(ParseError) else Parsed(s[0], s[1..])
  }

  method ReadChar(stream: InStream) returns (r: Result<byte>)
    modifies stream
    ensures Agrees(r, stream, TakeChar(old(stream.Unread())))
  {
    var b := stream.Get();
    return if !stream.good then Throw(ParseError) else Ok(b);
  }

  /** The memory from index i on holds the first of these bytes in reverse; the rest is still to be read. */
  ghost predicate Taken(memory: seq<byte>, bytes: seq<byte>, i: nat, rest: seq<byte>) {
    && i <= |memory| <= i + |bytes|
    && rest == bytes[|memory| - i..] && memory[i..] == Reversed(bytes[..|memory| - i])
  }

  lemma NothingTaken(memory: seq<byte>, bytes: seq<byte>)
    ensures Taken(memory, bytes, |memory|, bytes)
  {
    assert bytes[..0] == [];
  }

  lemma OneTaken(memory: seq<byte>, bytes: seq<byte>, i: nat, rest: seq<byte>, b: byte)
    requires 0 < i <= |memory| && Taken(memory, bytes, i, [b] + rest)
    ensures Taken(memory[i - 1 := b], bytes, i - 1, rest)
  {
    hide Reversed;
    var n := |memory| - i;
    assert bytes[n..][0] == b && bytes[n..][1..] == rest;
    assert bytes[..n + 1] == bytes[..n] + [b];
    ReversedOfAppend(bytes[..n], b);
    assert memory[i - 1 := b][i - 1..] == [b] + memory[i..];
  }

  lemma NoneLeft(memory: seq<byte>, bytes: seq<byte>, i: nat)
    requires i > 0 && Taken(memory, bytes, i, [])
    ensures |bytes| < |memory|
  {
  }

  lemma AllTaken(memory: seq<byte>, bytes: seq<byte>, rest: seq<byte>)
    requires Taken(memory, bytes, 0, rest)
    ensures TakeMemory(bytes, |memory|) == Parsed(memory, rest)
  {
    hide Reversed;
    assert memory[0..] == memory;
  }

  lemma TooFew(bytes: seq<byte>, size: nat)
    requires |bytes| < size
    ensures TakeMemory(bytes, size) == Failed(ParseError)
  {
  }

  /** read_data: fills memory from its last byte to its first, and looks at the stream at the end only. */
  method ReadData(size: nat, stream: InStream) returns (r: Result<seq<byte>>)
    requires stream.good
    modifies stream
    ensures Agrees(r, stream, TakeMemory(old(stream.bytes), size))
  {
    hide Reversed, Taken, TakeMemory;
    var memory := new byte[size];
    var i := size;
    ghost var bytes := stream.bytes;
    NothingTaken(memory[..], bytes);
    while i > 0
      invariant 0 <= i <= size
      invariant stream.good ==> Taken(memory[..], bytes, i, stream.bytes)
      invariant !stream.good ==> |bytes| < size
    {
      ghost var before := memory[..];
      ghost var wasGood := stream.good;
      var b := stream.Get();
      if wasGood {
        if stream.good {
          OneTaken(before, bytes, i, stream.bytes, b);
        } else {
          NoneLeft(before, bytes, i);
        }
      }
      memory[i - 1] := b;
      assert memory[..] == before[i - 1 := b];
      i := i - 1;
    }
    if !stream.good {
      TooFew(bytes, size);
      return Throw(ParseError);
    }
    AllTaken(memory[..], bytes, stream.bytes);
    return Ok(memory[..]);
  }

  method ReadNumber(k: nat, stream: InStream) returns (r: Result<nat>)
    requires stream.good
    modifies stream
    ensures Agrees(r, stream, TakeNumber(old(stream.bytes), k))
  {
    var data := ReadData(k, stream);
    return match data case Ok(memory) => Ok(Number(memory)) case Throw(e) => Throw(e);
  }

  method ReadLength(l: Length, stream: InStream) returns (r: Result<nat>)
    requires stream.good
    modifies stream
    ensures Agrees(r, stream, TakeLength(old(stream.bytes), l))
  {
    match l
    case Given(n) => r := Ok(n);
    case Follows(k) => r := ReadNumber(k, stream);
  }

  /** The characters of a string or the bytes of binary data. */
  method ReadSized(l: Length, stream: InStream) returns (r: Result<seq<byte>>)
    requires stream.good
    modifies stream
    ensures Agrees(r, stream, TakeData(old(stream.bytes), l))
  {
    hide TakeLength, TakeMemory;
    var size := ReadLength(l, stream);
    match size
    case Ok(n) => r := ReadData(n, stream);
    case Throw(e) => r := Throw(e);
  }

  method ReadExtension(size: nat, stream: InStream) returns (r: Result<Pack>)
    requires stream.good
    modifies stream
    ensures Agrees(r, stream, TakeExtension(old(stream.bytes), size))
  {
    hide TakeMemory;
    var kind := ReadChar(stream);
    if kind.Throw? {
      return Throw(kind.error);
    }
    var data := ReadData(size, stream);
    return match data case Ok(d) => Ok(Extension(kind.value, d)) case Throw(e) => Throw(e);
  }

  method ReadArray(stream: InStream, size: nat, depth: nat) returns (r: Result<Pack>)
    requires stream.good && depth <= MAX_DEPTH + 1
    modifies stream
    ensures Agrees(r, stream, ParseArray(old(stream.bytes), size, depth, []))
    decreases MAX_DEPTH + 1 - depth, 1
  {
    var result := [];
    for i := 0 to size
      invariant stream.good
      invariant ParseArray(stream.bytes, size - i, depth, result) == ParseArray(old(stream.bytes), size, depth, [])
    {
      var element := Deserialize(stream, depth);
      if element.Throw? {
        return Throw(element.error);
      }
      result := result + [element.value];
    }
    return Ok(Array(result));
  }

  method ReadMap(stream: InStream, size: nat, depth: nat) returns (r: Result<Pack>)
    requires stream.good && depth <= MAX_DEPTH + 1
    modifies stream
    ensures Agrees(r, stream, ParseMap(old(stream.bytes), size, depth, []))
    decreases MAX_DEPTH + 1 - depth, 1
  {
    var result := [];
    for i := 0 to size
      invariant stream.good
      invariant ParseMap(stream.bytes, size - i, depth, result) == ParseMap(old(stream.bytes), size, depth, [])
    {
      var key := Deserialize(stream, depth);
      if key.Throw? {
        return Throw(key.error);
      }
      var value := Deserialize(stream, depth);
      if value.Throw? {
        return Throw(value.error);
      }
      result := Emplaced(result, Entry(key.value, value.value));
    }
    return Ok(Map(result));
  }

  /** _deserialize. */
  method Deserialize(stream: InStream, depth: nat) returns (r: Result<Pack>)
    modifies stream
    ensures Agrees(r, stream, Parse(old(stream.Unread()), depth))
    decreases MAX_DEPTH + 1 - depth, 0
  {
    if depth > MAX_DEPTH {
      return Throw(RecursionDepthExceeded);
    }
    var nextByte := ReadChar(stream);
    if nextByte.Throw? {
      return Throw(nextByte.error);
    }
    r := ReadBody(HeaderOf(nextByte.value), stream, depth + 1);
  }

  /** The part of _deserialize behind the first byte; depth is that of what the value contains. */
  method ReadBody(header: Header, stream: InStream, depth: nat) returns (r: Result<Pack>)
    requires stream.good && 0 < depth <= MAX_DEPTH + 1
    modifies stream
    ensures Agrees(r, stream, ParseBody(header, old(stream.bytes), depth))
    decreases MAX_DEPTH + 1 - depth, 3
  {
    hide ParseArray, ParseMap, TakeExtension, TakeData, TakeLength;
    match header
    case NilHeader => r := Ok(Nil);
    case BoolHeader(b) => r := Ok(Bool(b));
    case SmallUint(n) => r := Ok(Uint(n));
    case SmallInt(i) => r := Ok(Int(i));
    case UintHeader(_) => r := ReadScalar(header, stream, depth);
    case IntHeader(_) => r := ReadScalar(header, stream, depth);
    case FloatHeader => r := ReadScalar(header, stream, depth);
    case DoubleHeader => r := ReadScalar(header, stream, depth);
    case StringOf(l) =>
      var data := ReadSized(l, stream);
      r := match data case Ok(d) => Ok(String(d)) case Throw(e) => Throw(e);
    case BinaryOf(l) =>
      var data := ReadSized(l, stream);
      r := match data case Ok(d) => Ok(Binary(d)) case Throw(e) => Throw(e);
    case ArrayOf(l) => r := ReadArrayBody(l, stream, depth);
    case MapOf(l) => r := ReadMapBody(l, stream, depth);
    case ExtensionOf(l) => r := ReadExtensionBody(l, stream, depth);
    case Unused => r := Throw(AssertionFailed);
  }

  method ReadScalar(header: Header, stream: InStream, depth: nat) returns (r: Result<Pack>)
    requires stream.good && 0 < depth <= MAX_DEPTH + 1
    requires header.UintHeader? || header.IntHeader? || header.FloatHeader? || header.DoubleHeader?
    modifies stream
    ensures Agrees(r, stream, ParseBody(header, old(stream.bytes), depth))
  {
    hide ParseArray, ParseMap, TakeExtension, TakeData, TakeLength, TakeNumber, TakeMemory;
    match header
    case UintHeader(k) =>
      var n := ReadNumber(k, stream);
      r := match n case Ok(u) => Ok(Uint(u)) case Throw(e) => Throw(e);
    case IntHeader(k) =>
      var n := ReadNumber(k, stream);
      r := match n case Ok(u) => Ok(Int(Signed(u, k))) case Throw(e) => Throw(e);
    case FloatHeader =>
      var m := ReadData(4, stream);
      r := match m case Ok(d) => Ok(Float(d)) case Throw(e) => Throw(e);
    case DoubleHeader =>
      var m := ReadData(8, stream);
      r := match m case Ok(d) => Ok(Double(d)) case Throw(e) => Throw(e);
  }

  method ReadArrayBody(l: Length, stream: InStream, depth: nat) returns (r: Result<Pack>)
    requires stream.good && 0 < depth <= MAX_DEPTH + 1
    modifies stream
    ensures Agrees(r, stream, ParseBody(ArrayOf(l), old(stream.bytes), depth))
    decreases MAX_DEPTH + 1 - depth, 2
  {
    hide ParseArray, ParseMap, TakeExtension, TakeData, TakeLength;
    var size := ReadLength(l, stream);
    match size
    case Ok(n) => r := ReadArray(stream, n, depth);
    case Throw(e) => r := Throw(e);
  }

  method ReadMapBody(l: Length, stream: InStream, depth: nat) returns (r: Result<Pack>)
    requires stream.good && 0 < depth <= MAX_DEPTH + 1
    modifies stream
    ensures Agrees(r, stream, ParseBody(MapOf(l), old(stream.bytes), depth))
    decreases MAX_DEPTH + 1 - depth, 2
  {
    hide ParseArray, ParseMap, TakeExtension, TakeData, TakeLength;
    var size := ReadLength(l, stream);
    match size
    case Ok(n) => r := ReadMap(stream, n, depth);
    case Throw(e) => r := Throw(e);
  }

  method ReadExtensionBody(l: Length, stream: InStream, depth: nat) returns (r: Result<Pack>)
    requires stream.good && 0 < depth <= MAX_DEPTH + 1
    modifies stream
    ensures Agrees(r, stream, ParseBody(ExtensionOf(l), old(stream.bytes), depth))
  {
    hide ParseArray, ParseMap, TakeExtension, TakeData, TakeLength;
    var size := ReadLength(l, stream);
    match size
    case Ok(n) => r := ReadExtension(n, stream);
    case Throw(e) => r := Throw(e);
  }
}
