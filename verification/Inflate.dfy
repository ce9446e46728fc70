/** stbi__zbuf: the decoder's bit buffer and output buffer, and the loop over one compressed block. */
module Inflate {
  import opened Wrappers
  import opened Words
  import opened Canonical
  import opened Lookup
  import opened BitReversal
  import opened HuffmanTable
  import opened Lz77

  /** Bytes as a number, least significant byte first. */
  function LittleEndian(bytes: Bytes): nat {
    if bytes == [] then 0 else bytes[0] + 0x100 * LittleEndian(bytes[1..])
  }

  // ----- bit buffer

  lemma {:induction false} ShrOfSum(b: nat, q: nat, n: nat, i: nat)
    requires i <= n
    ensures Shr(b + Pow2(n) * q, i) == Shr(b, i) + Pow2(n - i) * q
    decreases i
  {
    hide *;
    ShrStep(b, i);
    ShrStep(b + Pow2(n) * q, i);
    if i > 0 {
      HalfOfSum(b, q, n);
      ShrOfSum(b / 2, q, n - 1, i - 1);
    }
  }

  lemma ShrStep(a: nat, i: nat)
    ensures Shr(a, i) == if i == 0 then a else Shr(a / 2, i - 1)
  {
  }

  lemma HalfOfSum(b: nat, q: nat, n: nat)
    requires n > 0
    ensures (b + Pow2(n) * q) / 2 == b / 2 + Pow2(n - 1) * q
  {
    var p := Pow2(n - 1);
    assert Pow2(n) == 2 * p;
    hide Pow2;
    assert Pow2(n) * q == 2 * (p * q);
  }

  /** Section 3.1.1 of RFC 1951: the bits of the stream are those of its bytes in order, lowest bit first. */
  lemma {:induction false} StreamBits(bytes: Bytes, i: nat)
    requires i < 8 * |bytes|
    ensures Shr(LittleEndian(bytes), i) % 2 == Shr(bytes[i / 8], i % 8) % 2
    decreases i
  {
    hide *;
    var b, q := bytes[0], LittleEndian(bytes[1..]);
    FirstByte(bytes);
    Pow2Of8();
    EighthOf(i);
    if i < 8 {
      ShrOfSum(b, q, 8, i);
      EvenPower(Shr(b, i), 8 - i, q);
    } else {
      ShrIs(LittleEndian(bytes), 8, q, b);
      ShrShr(LittleEndian(bytes), 8, i - 8);
      StreamBits(bytes[1..], i - 8);
    }
  }

  lemma EighthOf(i: nat)
    ensures if i < 8 then i / 8 == 0 && i % 8 == i else i / 8 == (i - 8) / 8 + 1 && i % 8 == (i - 8) % 8
  {
  }

  lemma FirstByte(bytes: Bytes)
    requires bytes != []
    ensures LittleEndian(bytes) == bytes[0] + 0x100 * LittleEndian(bytes[1..])
  {
  }

  lemma EvenPower(a: nat, n: nat, q: nat)
    requires n > 0
    ensures (a + Pow2(n) * q) % 2 == a % 2
  {
    var p := Pow2(n - 1);
    assert Pow2(n) == 2 * p;
    hide Pow2;
    assert Pow2(n) * q == 2 * (p * q);
  }

  lemma Pow2Of8()
    ensures Pow2(8) == 0x100
  {
  }

  lemma {:induction false} ShlStep(byte: nat, rest: nat, n: nat)
    ensures Shl(byte + 0x100 * rest, n) == Shl(byte, n) + Shl(rest, n + 8)
  {
    Pow2Add(n, 8);
    assert Pow2(8) == 0x100;
    ShlStepNumbers(byte, rest, Pow2(n));
  }

  lemma ShlStepNumbers(byte: nat, rest: nat, p: nat)
    ensures (byte + 0x100 * rest) * p == byte * p + rest * (p * 0x100)
  {
  }

  lemma {:induction false} ByteFits(a: nat, byte: nat, n: nat)
    requires a < Pow2(n) && byte < 0x100
    ensures a + Shl(byte, n) < Pow2(n + 8)
  {
    Pow2Add(n, 8);
    assert Pow2(8) == 0x100;
    MulMonotone(byte + 1, 0x100, Pow2(n));
    MulPlusOne(byte, Pow2(n));
  }

  /** Taking s bits from a buffer of n with more behind it. */
  lemma {:induction false} TakeBits(a: nat, b: nat, n: nat, s: nat)
    requires s <= n
    ensures Low(a + Shl(b, n), s) == Low(a, s)
    ensures Shr(a + Shl(b, n), s) == Shr(a, s) + Shl(b, n - s)
    decreases s
  {
    hide Shl;
    if s > 0 {
      ShlDoubles(b, n);
      TakeBits(a / 2, b, n - 1, s - 1);
    }
  }

  lemma ShlDoubles(b: nat, n: nat)
    requires n > 0
    ensures Shl(b, n) == 2 * Shl(b, n - 1)
  {
    MulSwap(b, Pow2(n - 1));
  }

  // ----- what the tables find

  lemma {:induction false} FastHit(lens: seq<Length>, stream: nat, e: nat)
    requires KraftHolds(lens) && e != 0
    requires FastEntry(lens, |lens|, Low(stream, FAST_BITS), e)
    ensures Decoded(lens, stream) == Some(e % FAST_SIZE)
    ensures e / FAST_SIZE == lens[e % FAST_SIZE] <= FAST_BITS
  {
    hide Low, Matches;
    var v := e % FAST_SIZE;
    IsUsed(lens, v, Low(stream, FAST_BITS));
    FastMatchesLow(lens, v, stream);
    MatchIsUnique(lens, v, Decoded(lens, stream).value, stream);
  }

  lemma IsUsed(lens: seq<Length>, v: nat, stream: nat)
    requires Matches(lens, v, stream)
    ensures Used(lens, v)
  {
  }

  /** A miss in the fast table means that the aligned lookahead lies above all short codes. */
  lemma {:induction false} FastMiss(lens: seq<Length>, stream: nat)
    requires KraftHolds(lens)
    requires FastEntry(lens, |lens|, Low(stream, FAST_BITS), 0)
    ensures MaxCode(lens, FAST_BITS) <= Reverse(stream, LOOKAHEAD)
  {
    hide Low, Matches, Reverse, MaxCode;
    if Reverse(stream, LOOKAHEAD) < MaxCode(lens, FAST_BITS) {
      var v := BelowMaxHasMatch(lens, FAST_BITS, stream);
      IsUsed(lens, v, stream);
      FastMatchesLow(lens, v, stream);
    }
  }

  /** The first length whose end lies above the aligned lookahead is that of the matching symbol. */
  lemma {:induction false} SlowHit(lens: seq<Length>, stream: nat, s: nat) returns (v: nat)
    requires KraftHolds(lens) && 0 < s <= MAX_BITS
    requires MaxCode(lens, s - 1) <= Reverse(stream, LOOKAHEAD) < MaxCode(lens, s)
    ensures Decoded(lens, stream) == Some(v) && Used(lens, v) && lens[v] == s
    ensures Shr(Reverse(stream, LOOKAHEAD), LOOKAHEAD - s) - NextCode(lens, s) + CountShorter(lens, |lens|, s)
            == Slot(lens, v)
  {
    hide Matches, Reverse, MaxCode, Shr, NextCode;
    v := RangeHasMatch(lens, s, stream);
    IsUsed(lens, v, stream);
    MatchIsUnique(lens, v, Decoded(lens, stream).value, stream);
  }

  lemma {:induction false} SlowMiss(lens: seq<Length>, stream: nat)
    requires KraftHolds(lens) && MaxCode(lens, MAX_BITS) <= Reverse(stream, LOOKAHEAD)
    ensures Decoded(lens, stream) == None
  {
    hide Matches, Reverse, MaxCode;
    if Decoded(lens, stream).Some? {
      var v := Decoded(lens, stream).value;
      IsUsed(lens, v, stream);
      MatchInRange(lens, v, stream);
      MaxCodeGrows(lens, lens[v], MAX_BITS);
    }
  }

  // ----- room

  lemma {:induction false} GrowTwice(cap: nat, c: nat, n: nat)
    requires cap > 0 && Grow(cap, c) == c <= n
    ensures Grow(cap, n) == Grow(c, n)
    decreases c - cap
  {
    if c > cap {
      GrowTwice(2 * cap, c, n);
    }
  }

  lemma {:induction false} GrowStable(cap: nat, n: nat)
    requires cap > 0
    ensures Grow(cap, Grow(cap, n)) == Grow(cap, n)
    decreases n - cap
  {
    if n > cap {
      GrowStable(2 * cap, n);
    }
  }

  /** The buffer has been doubled any number of times, as far as room allows. */
  ghost predicate Reached(room: Room, c: nat) {
    && room.cap > 0 && Grow(room.cap, c) == c
    && (c == room.cap || (room.expandable && c <= room.maxAlloc))
  }

  /** Whether n bytes fit does not depend on how often the buffer has been doubled before. */
  lemma {:induction false} FitsFromReached(room: Room, c: nat, n: nat)
    requires Reached(room, c)
    ensures room.Fits(n) <==> n <= c || (room.expandable && Grow(c, n) <= room.maxAlloc)
  {
    if n <= c {
      GrowMonotone(room.cap, n, c);
    } else {
      GrowTwice(room.cap, c, n);
    }
  }

  lemma {:induction false} ReachedAfterGrowing(room: Room, c: nat, n: nat)
    requires Reached(room, c) && n > c && room.expandable && Grow(c, n) <= room.maxAlloc
    ensures Reached(room, Grow(c, n))
  {
    GrowTwice(room.cap, c, n);
    GrowStable(room.cap, n);
  }

  // ----- copying within the buffer

  /** The buffer with n bytes behind the first from ones written from dist bytes back, and the rest untouched. */
  ghost predicate Copied(now: Bytes, before: Bytes, from: nat, dist: nat, n: nat)
    requires dist <= from
  {
    && |now| == |before| && from + n <= |now| && now[from + n..] == before[from + n..]
    && now[..from + n] == if dist == 0 then before[..from + n] else CopyBack(before[..from], dist, n)
  }

  lemma NothingCopied(before: Bytes, from: nat, dist: nat)
    requires dist <= from <= |before|
    ensures Copied(before, before, from, dist, 0)
  {
  }

  lemma OneMoreCopied(now: Bytes, before: Bytes, from: nat, dist: nat, n: nat)
    requires dist <= from && from + n < |now| && Copied(now, before, from, dist, n)
    ensures Copied(now[from + n := now[from + n - dist]], before, from, dist, n + 1)
  {
    var b := now[from + n - dist];
    var next := now[from + n := b];
    assert next[..from + n + 1] == now[..from + n] + [b];
    assert next[from + n + 1..] == now[from + n..][1..] == before[from + n + 1..];
    if dist == 0 {
      assert now[from + n] == now[from + n..][0] == before[from + n];
      assert before[..from + n + 1] == before[..from + n] + [before[from + n]];
    } else {
      assert b == now[..from + n][from + n - dist];
    }
  }

  lemma OneMoreOfRun(now: Bytes, before: Bytes, from: nat, n: nat)
    requires 0 < from && from + n < |now| && Copied(now, before, from, 1, n)
    ensures Copied(now[from + n := before[from - 1]], before, from, 1, n + 1)
  {
    hide CopyBack;
    OneMoreCopied(now, before, from, 1, n);
    CopyOfLast(before[..from], n);
    assert now[from + n - 1] == now[..from + n][from + n - 1] == before[from - 1];
  }

  lemma CopiedIsCopy(room: Room, now: Bytes, before: Bytes, from: nat, dist: nat, len: nat)
    requires dist <= from && Copied(now, before, from, dist, len)
    requires forall i :: from <= i < |before| ==> before[i] == room.memory(i)
    ensures now[..from + len] == room.Copy(before[..from], dist, len)
    ensures forall i :: from + len <= i < |now| ==> now[i] == room.memory(i)
  {
    hide CopyBack;
    if dist == 0 {
      assert before[..from + len] == before[..from] + room.Unwritten(from, len);
    }
    forall i | from + len <= i < |now| ensures now[i] == room.memory(i) {
      assert now[i] == now[from + len..][i - (from + len)] == before[from + len..][i - (from + len)];
    }
  }

  // ----- the decoder

  class ZBuf {
    const input: Bytes
    var zbuffer: nat
    var numBits: nat
    var codeBuffer: nat

    var buffer: array<uint8>
    var zout: nat
    const expandable: bool
    const maxAlloc: nat

    /** What the bytes of the buffer are before they are written. */
    const memory: nat -> uint8

    const zLength: ZHuffman
    const zDistance: ZHuffman

    constructor (input: Bytes, buffer: array<uint8>, expandable: bool, maxAlloc: nat, memory: nat -> uint8,
                 zLength: ZHuffman, zDistance: ZHuffman)
      ensures this.input == input && this.buffer == buffer && zout == 0
      ensures this.expandable == expandable && this.maxAlloc == maxAlloc && this.memory == memory
      ensures this.zLength == zLength && this.zDistance == zDistance
      ensures BitsValid() && Stream() == LittleEndian(input)
      ensures buffer.Length > 0 && buffer as object !in zLength.Arrays() + zDistance.Arrays()
              && (forall i :: 0 <= i < buffer.Length ==> buffer[i] == memory(i))
              ==> OutputValid(Room(buffer.Length, expandable, maxAlloc, memory))
    {
      this.input, this.zbuffer, this.numBits, this.codeBuffer := input, 0, 0, 0;
      this.buffer, this.zout, this.expandable, this.maxAlloc := buffer, 0, expandable, maxAlloc;
      this.memory, this.zLength, this.zDistance := memory, zLength, zDistance;
      new;
      assert Pow2(0) == 1;
      assert input[0..] == input;
    }

    ghost predicate BitsValid()
      reads `zbuffer, `numBits, `codeBuffer
    {
      zbuffer <= |input| && numBits <= 32 && codeBuffer < Pow2(numBits)
    }

    /** All bits still to come: those in the buffer, then the bytes not read yet, then zeros. */
    ghost function Stream(): nat
      requires BitsValid()
      reads `zbuffer, `numBits, `codeBuffer
    {
      codeBuffer + Shl(LittleEndian(input[zbuffer..]), numBits)
    }

    /** The end of the input reads as zeros. */
    method ZGet8() returns (b: uint8)
      requires zbuffer <= |input|
      modifies `zbuffer
      ensures old(zbuffer) <= zbuffer <= |input|
      ensures LittleEndian(input[old(zbuffer)..]) == b + 0x100 * LittleEndian(input[zbuffer..])
    {
      if zbuffer >= |input| {
        return 0;
      }
      b := input[zbuffer];
      assert input[zbuffer..][1..] == input[zbuffer + 1..];
      zbuffer := zbuffer + 1;
    }

    method FillBits()
      requires BitsValid() && numBits <= 24
      modifies `zbuffer, `numBits, `codeBuffer
      ensures BitsValid() && numBits > 24
      ensures Stream() == old(Stream())
    {
      FillByte();
      while numBits <= 24
        invariant BitsValid() && Stream() == old(Stream())
        decreases 32 - numBits
      {
        FillByte();
      }
    }

    method FillByte()
      requires BitsValid() && numBits <= 24
      modifies `zbuffer, `numBits, `codeBuffer
      ensures BitsValid() && numBits == old(numBits) + 8
      ensures Stream() == old(Stream())
    {
      hide LittleEndian, Shl, Pow2, Or;
      ghost var n := numBits;
      var b := ZGet8();
      ShlStep(b, LittleEndian(input[zbuffer..]), n);
      OrDisjoint(codeBuffer, b, n);
      ByteFits(codeBuffer, b, n);
      codeBuffer := Or(codeBuffer, Shl(b, numBits));
      numBits := numBits + 8;
    }

    /** Drops s bits that are in the buffer. */
    method Drop(s: nat)
      requires BitsValid() && s <= numBits
      modifies `numBits, `codeBuffer
      ensures BitsValid() && Stream() == Shr(old(Stream()), s)
      ensures numBits == old(numBits) - s
    {
      TakeBits(codeBuffer, LittleEndian(input[zbuffer..]), numBits, s);
      ShrBelow(codeBuffer, s, numBits - s);
      hide LittleEndian, Shl, Pow2, Shr;
      codeBuffer := Shr(codeBuffer, s);
      numBits := numBits - s;
    }

    method ZReceive(n: nat) returns (k: nat)
      requires BitsValid() && n <= 16
      modifies `zbuffer, `numBits, `codeBuffer
      ensures BitsValid()
      ensures k == Low(old(Stream()), n) && Stream() == Shr(old(Stream()), n)
    {
      hide LittleEndian, Shl, Pow2, Shr, Low;
      if numBits < n {
        FillBits();
      }
      TakeBits(codeBuffer, LittleEndian(input[zbuffer..]), numBits, n);
      k := Low(codeBuffer, n);
      Drop(n);
    }

    /** stbi__zhuffman_decode: the matching symbol is returned and its code consumed, or -1 if no code matches. */
    method Decode(z: ZHuffman, ghost lens: seq<Length>) returns (r: int)
      requires BitsValid() && z.Represents(lens)
      modifies `zbuffer, `numBits, `codeBuffer
      ensures BitsValid()
      ensures match Decoded(lens, old(Stream()))
              case Some(v) => r == v && Stream() == Shr(old(Stream()), lens[v])
              case None => r == -1 && Stream() == old(Stream())
    {
      hide LittleEndian, Shl, Pow2, Shr, Low, FastEntry, Decoded;
      if numBits < 16 {
        FillBits();
      }
      ghost var stream := Stream();
      TakeBits(codeBuffer, LittleEndian(input[zbuffer..]), numBits, FAST_BITS);
      LowBound(codeBuffer);
      var b := z.fast[Low(codeBuffer, FAST_BITS)];
      assert FastEntry(lens, |lens|, Low(stream, FAST_BITS), b);
      if b != 0 {
        FastHit(lens, stream, b);
        var s := b / FAST_SIZE;
        Drop(s);
        return b % FAST_SIZE;
      }
      FastMiss(lens, stream);
      r := DecodeSlowly(z, lens);
    }

    method DecodeSlowly(z: ZHuffman, ghost lens: seq<Length>) returns (r: int)
      requires BitsValid() && numBits >= 16 && z.Represents(lens)
      requires MaxCode(lens, FAST_BITS) <= Reverse(Stream(), LOOKAHEAD)
      modifies `numBits, `codeBuffer
      ensures BitsValid()
      ensures match Decoded(lens, old(Stream()))
              case Some(v) => r == v && Stream() == Shr(old(Stream()), lens[v])
              case None => r == -1 && Stream() == old(Stream())
    {
      hide LittleEndian, Shl, Pow2, Shr, Low, FastEntry, Decoded, Reverse, MaxCode, NextCode, BitReverse, Slot,
           CountShorter;
      ghost var stream := Stream();
      var k := BitReverse(codeBuffer, 16);
      BitReverseReverses(codeBuffer, 16);
      TakeBits(codeBuffer, LittleEndian(input[zbuffer..]), numBits, LOOKAHEAD);
      ReverseLow(codeBuffer, LOOKAHEAD, LOOKAHEAD);
      ReverseLow(stream, LOOKAHEAD, LOOKAHEAD);
      ReverseBelow(codeBuffer, LOOKAHEAD);
      Pow2Is();
      assert k == Reverse(stream, LOOKAHEAD) < 0x1_0000;
      var s := FAST_BITS + 1;
      while k >= z.maxcode[s]
        invariant FAST_BITS < s <= 16
        invariant MaxCode(lens, s - 1) <= k
        decreases 16 - s
      {
        assert s < 16;
        assert z.RangeOf(lens, s);
        s := s + 1;
      }
      if s == 16 {
        SlowMiss(lens, stream);
        return -1;
      }
      assert z.RangeOf(lens, s);
      ghost var v := SlowHit(lens, stream, s);
      var b := Shr(k, 16 - s) - z.firstcode[s] + z.firstsymbol[s];
      SlotBounds(lens, v);
      assert z.Stored(lens, v);
      assert z.size[b] == s;
      Drop(s);
      return z.value[b];
    }

    // ----- output

    ghost predicate OutputValid(room: Room)
      reads `zout, `buffer, buffer
    {
      && zout <= buffer.Length && Reached(room, buffer.Length)
      && room.expandable == expandable && room.maxAlloc == maxAlloc && room.memory == memory
      && (forall i :: zout <= i < buffer.Length ==> buffer[i] == memory(i))
      && buffer as object !in zLength.Arrays() + zDistance.Arrays()
    }

    ghost predicate Tables(codes: Codes)
      reads zLength.Arrays(), zDistance.Arrays()
    {
      codes.Valid() && zLength.Represents(codes.lens) && zDistance.Represents(codes.dists)
    }

    lemma UseTables(codes: Codes)
      requires Tables(codes)
      ensures codes.Valid() && zLength.Represents(codes.lens) && zDistance.Represents(codes.dists)
    {
    }

    /** stbi__zexpand: doubles the buffer until n more bytes fit; realloc fails above maxAlloc. */
    method ZExpand(n: nat, ghost room: Room) returns (ok: bool)
      requires OutputValid(room) && zout + n > buffer.Length
      modifies `buffer
      ensures OutputValid(room) && buffer[..zout] == old(buffer[..zout])
      ensures ok <==> room.Fits(zout + n)
      ensures ok ==> fresh(buffer) && zout + n <= buffer.Length
      ensures !ok ==> buffer == old(buffer)
    {
      hide Grow;
      FitsFromReached(room, buffer.Length, zout + n);
      if !expandable {
        return false;
      }
      var limit := Doubled(buffer.Length, zout + n);
      if limit > maxAlloc {
        return false;
      }
      ReachedAfterGrowing(room, buffer.Length, zout + n);
      Reallocate(limit);
      return true;
    }

    /** The loop that doubles the limit until n bytes fit. */
    method Doubled(length: nat, n: nat) returns (limit: nat)
      requires length > 0
      ensures limit == Grow(length, n)
    {
      limit := length;
      while n > limit
        invariant limit > 0 && Grow(limit, n) == Grow(length, n)
        decreases n - limit
      {
        limit := limit * 2;
      }
    }

    method Reallocate(limit: nat)
      requires buffer.Length <= limit
      modifies `buffer
      ensures fresh(buffer) && buffer.Length == limit && buffer[..old(buffer.Length)] == old(buffer[..])
      ensures forall i :: old(buffer.Length) <= i < limit ==> buffer[i] == memory(i)
    {
      var q := new uint8[limit]((i: nat) => memory(i));
      assert forall i :: 0 <= i < limit ==> q[i] == memory(i);
      forall i | 0 <= i < buffer.Length {
        q[i] := buffer[i];
      }
      assert q[..buffer.Length] == buffer[..];
      buffer := q;
    }

    method Literal(z: uint8, ghost room: Room) returns (ok: bool)
      requires OutputValid(room)
      modifies `buffer, `zout, buffer
      ensures OutputValid(room) && (fresh(buffer) || buffer == old(buffer))
      ensures ok <==> room.Fits(old(zout) + 1)
      ensures ok ==> buffer[..zout] == old(buffer[..zout]) + [z]
    {
      FitsFromReached(room, buffer.Length, zout + 1);
      if zout >= buffer.Length {
        ok := ZExpand(1, room);
        if !ok {
          return;
        }
      }
      buffer[zout] := z;
      zout := zout + 1;
      ok := true;
    }

    /** Appends len bytes from dist bytes back, one byte at a time. */
    method CopyMatch(dist: nat, len: nat, ghost room: Room) returns (ok: bool)
      requires OutputValid(room) && dist <= zout
      modifies `buffer, `zout, buffer
      ensures OutputValid(room) && (fresh(buffer) || buffer == old(buffer))
      ensures ok <==> room.Fits(old(zout) + len)
      ensures ok ==> buffer[..zout] == room.Copy(old(buffer[..zout]), dist, len)
    {
      hide Grow, Room.Fits, Reached, Room.Copy;
      FitsFromReached(room, buffer.Length, zout + len);
      if zout + len > buffer.Length {
        ok := ZExpand(len, room);
        if !ok {
          return;
        }
      }
      CopyInPlace(dist, len, room);
      ok := true;
    }

    method CopyInPlace(dist: nat, len: nat, ghost room: Room)
      requires OutputValid(room) && dist <= zout && zout + len <= buffer.Length
      modifies `zout, buffer
      ensures OutputValid(room) && buffer[..zout] == room.Copy(old(buffer[..zout]), dist, len)
    {
      hide Grow, Room.Fits, Reached, Room.Copy, Copied;
      ghost var before, from := buffer[..], zout;
      if dist == 1 {
        RunOfOne(len);
      } else {
        CopyBytes(dist, len);
      }
      CopiedIsCopy(room, buffer[..], before, from, dist, len);
    }

    /** A run of one byte. */
    method RunOfOne(len: nat)
      requires 0 < zout && zout + len <= buffer.Length
      modifies `zout, buffer
      ensures zout == old(zout) + len
      ensures Copied(buffer[..], old(buffer[..]), old(zout), 1, len)
    {
      hide Copied, CopyBack;
      ghost var before, from := buffer[..], zout;
      var v := buffer[zout - 1];
      NothingCopied(before, from, 1);
      for i := 0 to len
        invariant zout == from + i && Copied(buffer[..], before, from, 1, i) && v == before[from - 1]
      {
        OneMoreOfRun(buffer[..], before, from, i);
        ghost var now := buffer[..];
        buffer[zout] := v;
        assert buffer[..] == now[from + i := v];
        zout := zout + 1;
      }
    }

    method CopyBytes(dist: nat, len: nat)
      requires dist <= zout && zout + len <= buffer.Length
      modifies `zout, buffer
      ensures zout == old(zout) + len
      ensures Copied(buffer[..], old(buffer[..]), old(zout), dist, len)
    {
      hide Copied, CopyBack;
      ghost var before, from := buffer[..], zout;
      var p := zout - dist;
      NothingCopied(before, from, dist);
      for i := 0 to len
        invariant zout == from + i && p == zout - dist && Copied(buffer[..], before, from, dist, i)
      {
        OneMoreCopied(buffer[..], before, from, dist, i);
        ghost var now := buffer[..];
        buffer[zout] := buffer[p];
        assert buffer[..] == now[from + i := now[from + i - dist]];
        zout, p := zout + 1, p + 1;
      }
    }

    // ----- the block

    /** One literal, match or end-of-block code; done is set by the last of these and by errors. */
    method Symbol(ghost codes: Codes, ghost room: Room) returns (ok: bool, done: bool)
      requires BitsValid() && OutputValid(room) && Tables(codes)
      modifies this, buffer
      ensures BitsValid() && OutputValid(room) && Tables(codes) && (fresh(buffer) || buffer == old(buffer))
      ensures match old(BlockStep(codes, room, buffer[..zout], Stream()))
              case Next(o, s) => ok && !done && buffer[..zout] == o && Stream() == s
              case End(o, s) => ok && done && buffer[..zout] == o && Stream() == s
              case Fail(_) => !ok && done
    {
      hide Shr, Low, Shl, LittleEndian, Decoded, KraftHolds, ZHuffman.Represents, Room.Fits, LengthStep, Tables,
           Reached, Pow2;
      UseTables(codes);
      var z := Decode(zLength, codes.lens);
      if z < 256 {
        if z < 0 {
          return false, true;
        }
        ok := Literal(z, room);
        return ok, !ok;
      }
      if z == 256 {
        return true, true;
      }
      ok := LengthAndDistance(z - 257, codes, room);
      return ok, !ok;
    }

    method LengthAndDistance(z: nat, ghost codes: Codes, ghost room: Room) returns (ok: bool)
      requires BitsValid() && OutputValid(room) && Tables(codes) && codes.Valid() && z < 31
      modifies this, buffer
      ensures BitsValid() && OutputValid(room) && Tables(codes) && (fresh(buffer) || buffer == old(buffer))
      ensures match old(LengthStep(codes.dists, room, buffer[..zout], z, Stream()))
              case Next(o, s) => ok && buffer[..zout] == o && Stream() == s
              case End(o, s) => false
              case Fail(_) => !ok
    {
      hide Shr, Low, MatchStep, Tables, OutputValid, BitsValid, Stream, KraftHolds;
      UseOutput(room);
      var len := MatchLength(z);
      ok := Match(len, codes, room);
    }

    method MatchLength(z: nat) returns (len: nat)
      requires BitsValid() && z < 31
      modifies `zbuffer, `numBits, `codeBuffer
      ensures BitsValid()
      ensures len == LENGTH_BASE[z] + Low(old(Stream()), LENGTH_EXTRA[z])
      ensures Stream() == Shr(old(Stream()), LENGTH_EXTRA[z])
    {
      len := LENGTH_BASE[z];
      NoBits(Stream());
      hide Shr, Low, Shl, LittleEndian;
      if LENGTH_EXTRA[z] != 0 {
        var k := ZReceive(LENGTH_EXTRA[z]);
        len := len + k;
      }
    }

    method MatchDistance(z: nat) returns (dist: nat)
      requires BitsValid() && z < MAX_DISTANCES
      modifies `zbuffer, `numBits, `codeBuffer
      ensures BitsValid()
      ensures dist == DIST_BASE[z] + Low(old(Stream()), DIST_EXTRA[z])
      ensures Stream() == Shr(old(Stream()), DIST_EXTRA[z])
    {
      dist := DIST_BASE[z];
      NoBits(Stream());
      hide Shr, Low, Shl, LittleEndian;
      if DIST_EXTRA[z] != 0 {
        var k := ZReceive(DIST_EXTRA[z]);
        dist := dist + k;
      }
    }

    method Match(len: nat, ghost codes: Codes, ghost room: Room) returns (ok: bool)
      requires BitsValid() && OutputValid(room) && Tables(codes)
      modifies this, buffer
      ensures BitsValid() && OutputValid(room) && Tables(codes) && (fresh(buffer) || buffer == old(buffer))
      ensures match old(MatchStep(codes.dists, room, buffer[..zout], len, Stream()))
              case Next(o, s) => ok && buffer[..zout] == o && Stream() == s
              case End(o, s) => false
              case Fail(_) => !ok
    {
      hide BitsValid, Stream, OutputValid, Tables, ZHuffman.Represents, KraftHolds, MatchStep, DistanceOf, CopyStep;
      UseTables(codes);
      UseOutput(room);
      MatchIs(codes.dists, room, buffer[..zout], len, Stream());
      var found, dist := Distance(codes);
      if !found {
        return false;
      }
      ok := CopyFrom(dist, len, room);
    }

    lemma UseOutput(room: Room)
      requires OutputValid(room)
      ensures zout <= buffer.Length && room.cap > 0
      ensures buffer as object !in zLength.Arrays() + zDistance.Arrays()
    {
    }

    /** The distance code and its extra bits. */
    method Distance(ghost codes: Codes) returns (found: bool, dist: nat)
      requires BitsValid() && Tables(codes)
      modifies `zbuffer, `numBits, `codeBuffer
      ensures BitsValid()
      ensures match old(DistanceOf(codes.dists, Stream()))
              case None => !found
              case Some((d, rest)) => found && dist == d && Stream() == rest
    {
      hide Shr, Low, Shl, LittleEndian, Decoded, KraftHolds, ZHuffman.Represents, Tables, Pow2;
      UseTables(codes);
      var z := Decode(zDistance, codes.dists);
      if z < 0 {
        return false, 0;
      }
      found := true;
      dist := MatchDistance(z);
    }

    method CopyFrom(dist: nat, len: nat, ghost room: Room) returns (ok: bool)
      requires BitsValid() && OutputValid(room)
      modifies `buffer, `zout, buffer
      ensures BitsValid() && OutputValid(room) && (fresh(buffer) || buffer == old(buffer))
      ensures match old(CopyStep(room, buffer[..zout], dist, len, Stream()))
              case Next(o, s) => ok && buffer[..zout] == o && Stream() == s
              case End(o, s) => false
              case Fail(_) => !ok
    {
      hide Shl, LittleEndian, Room.Fits, Room.Copy, Reached, Pow2;
      if zout < dist {
        return false;
      }
      ok := CopyMatch(dist, len, room);
    }

    /** stbi__parse_huffman_block, as far as it comes in this number of steps. */
    method ParseHuffmanBlock(ghost codes: Codes, ghost room: Room, steps: nat) returns (ended: bool, ok: bool)
      requires BitsValid() && OutputValid(room) && Tables(codes)
      modifies this, buffer
      ensures BitsValid() && OutputValid(room) && Tables(codes)
      ensures match old(Run(codes, room, buffer[..zout], Stream(), steps))
              case Done(o, s) => ended && ok && buffer[..zout] == o && Stream() == s
              case Failed(_) => ended && !ok
              case OutOfFuel => !ended
    {
      hide BlockStep;
      ghost var outcome := Run(codes, room, buffer[..zout], Stream(), steps);
      var left := steps;
      while left > 0
        invariant BitsValid() && OutputValid(room) && Tables(codes)
        invariant fresh(buffer) || buffer == old(buffer)
        invariant Run(codes, room, buffer[..zout], Stream(), left) == outcome
      {
        ok, ended := Symbol(codes, room);
        if ended {
          return;
        }
        left := left - 1;
      }
      return false, false;
    }
  }

  lemma MatchIs(dists: seq<Length>, room: Room, out: Bytes, len: nat, stream: nat)
    requires |dists| <= MAX_DISTANCES && room.cap > 0
    ensures MatchStep(dists, room, out, len, stream)
            == match DistanceOf(dists, stream)
               case None => Fail(BadCode)
               case Some((dist, rest)) => CopyStep(room, out, dist, len, rest)
  {
  }

  lemma NoBits(stream: nat)
    ensures Low(stream, 0) == 0 && Shr(stream, 0) == stream
  {
  }

  lemma {:induction false} LowBound(a: nat)
    ensures Low(a, FAST_BITS) < FAST_SIZE
  {
    ShrSplit(a, FAST_BITS);
    assert Pow2(9) == 512;
  }
}
