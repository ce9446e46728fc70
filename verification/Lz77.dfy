/**
 The meaning of a compressed block of sections 3.2.3 and 3.2.5 of RFC 1951: a fold of literals
 and (length, distance) copies over the output so far, and exactly when that fold ends.
 */
module Lz77 {
  import opened Wrappers
  import opened Words
  import opened Canonical
  import opened Lookup
  import opened HuffmanTable

  type Bytes = seq<uint8>

  const END_OF_BLOCK := 256
  const MAX_DISTANCES := 32

  const LENGTH_BASE: seq<nat> :=
    [3, 4, 5, 6, 7, 8, 9, 10, 11, 13,
     15, 17, 19, 23, 27, 31, 35, 43, 51, 59,
     67, 83, 99, 115, 131, 163, 195, 227, 258, 0, 0]

  const LENGTH_EXTRA: seq<nat> :=
    [0, 0, 0, 0, 0, 0, 0, 0, 1, 1, 1, 1, 2, 2, 2, 2, 3, 3, 3, 3, 4, 4, 4, 4, 5, 5, 5, 5, 0, 0, 0]

  const DIST_BASE: seq<nat> :=
    [1, 2, 3, 4, 5, 7, 9, 13, 17, 25, 33, 49, 65, 97, 129, 193,
     257, 385, 513, 769, 1025, 1537, 2049, 3073, 4097, 6145, 8193, 12289, 16385, 24577, 0, 0]

  const DIST_EXTRA: seq<nat> :=
    [0, 0, 0, 0, 1, 1, 2, 2, 3, 3, 4, 4, 5, 5, 6, 6, 7, 7, 8, 8, 9, 9, 10, 10, 11, 11, 12, 12, 13, 13, 0, 0]

  // ----- copies

  /** The output followed by len bytes, each the one dist before it. */
  function CopyBack(out: Bytes, dist: nat, len: nat): (r: Bytes)
    requires 0 < dist <= |out|
    ensures |r| == |out| + len
    ensures out <= r
    decreases len
  {
    if len == 0 then out
    else
      var r := CopyBack(out, dist, len - 1);
      r + [r[|r| - dist]]
  }

  /** Every copied byte is the one dist before it. */
  lemma {:induction false} CopyLooksBack(out: Bytes, dist: nat, len: nat, i: nat)
    requires 0 < dist <= |out| && i < len
    ensures CopyBack(out, dist, len)[|out| + i] == CopyBack(out, dist, len)[|out| + i - dist]
    decreases len
  {
    if i < len - 1 {
      CopyLooksBack(out, dist, len - 1, i);
    }
  }

  /** A copy that overlaps itself repeats the last dist bytes over and over. */
  lemma {:induction false} CopyIsPeriodic(out: Bytes, dist: nat, len: nat, i: nat)
    requires 0 < dist <= |out| && i < len
    ensures CopyBack(out, dist, len)[|out| + i] == out[|out| - dist + i % dist]
    decreases i
  {
    hide CopyBack;
    CopyLooksBack(out, dist, len, i);
    if i >= dist {
      CopyIsPeriodic(out, dist, len, i - dist);
      ModStep(i, dist);
    } else {
      ModBelow(i, dist);
    }
  }

  lemma ModBelow(i: nat, d: nat)
    requires i < d
    ensures i % d == i
  {
  }

  lemma ModStep(i: nat, d: nat)
    requires 0 < d <= i
    ensures i % d == (i - d) % d
  {
    var k := i / d - (i - d) / d - 1;
    assert k * d == (i - d) % d - i % d;
  }

  /** With distance 1 every copied byte is the last one. */
  lemma {:induction false} CopyOfLast(out: Bytes, len: nat)
    requires out != []
    ensures CopyBack(out, 1, len) == out + seq(len, _ => out[|out| - 1])
    decreases len
  {
    if len > 0 {
      CopyOfLast(out, len - 1);
    }
  }

  lemma {:induction false} CopyExtends(out: Bytes, dist: nat, len: nat)
    requires dist <= |out|
    ensures dist > 0 ==> out <= CopyBack(out, dist, len)
  {
    if dist > 0 && len > 0 {
      CopyExtends(out, dist, len - 1);
    }
  }

  // ----- room for the output

  /** The buffer size after doubling until n bytes fit. */
  function Grow(cap: nat, n: nat): (r: nat)
    requires cap > 0
    ensures r >= n && r >= cap
    decreases n - cap
  {
    if n <= cap then cap else Grow(2 * cap, n)
  }

  lemma {:induction false} GrowMonotone(cap: nat, m: nat, n: nat)
    requires cap > 0 && m <= n
    ensures Grow(cap, m) <= Grow(cap, n)
    decreases n - cap
  {
    if m > cap {
      GrowMonotone(2 * cap, m, n);
    }
  }

  /**
   The output buffer: its first size, whether it may grow, the largest block that can be allocated, and
   what each of its bytes is before it is written, which can be anything.
   */
  datatype Room = Room(cap: nat, expandable: bool, maxAlloc: nat, memory: nat -> uint8) {
    predicate Fits(n: nat)
      requires cap > 0
    {
      n <= cap || (expandable && Grow(cap, n) <= maxAlloc)
    }

    /** Bytes that have not been written. */
    function Unwritten(from: nat, n: nat): (s: Bytes)
      ensures |s| == n
    {
      seq<uint8>(n, i requires 0 <= i < n => memory(from + i))
    }

    /** A match: the bytes from dist bytes back, which at distance 0 are those that the buffer holds already. */
    function Copy(out: Bytes, dist: nat, len: nat): (r: Bytes)
      requires dist <= |out|
      ensures |r| == |out| + len && out <= r
      ensures len == 0 ==> r == out
    {
      CopyExtends(out, dist, len);
      if dist == 0 then out + Unwritten(|out|, len) else CopyBack(out, dist, len)
    }

    function Limit(): nat {
      if expandable && maxAlloc > cap then maxAlloc else cap
    }

    lemma FitsBelowLimit(n: nat)
      requires cap > 0 && Fits(n)
      ensures n <= Limit()
    {
    }
  }

  // ----- one step and the whole block

  datatype Failure = BadCode | BadDistance | OutOfSpace

  datatype Step = Next(out: Bytes, stream: nat) | End(out: Bytes, stream: nat) | Fail(error: Failure)

  datatype Codes = Codes(lens: seq<Length>, dists: seq<Length>) {
    ghost predicate Valid() {
      && |lens| <= MAX_SYMBOLS && |dists| <= MAX_DISTANCES
      && KraftHolds(lens) && KraftHolds(dists)
    }
  }

  /** What copying a match does when the rest of the input is stream. */
  ghost function CopyStep(room: Room, out: Bytes, dist: nat, len: nat, stream: nat): Step
    requires room.cap > 0
  {
    if |out| < dist then Fail(BadDistance)
    else if !room.Fits(|out| + len) then Fail(OutOfSpace)
    else Next(room.Copy(out, dist, len), stream)
  }

  /** The distance that comes next in the stream, and what is left of the stream behind it. */
  ghost function DistanceOf(dists: seq<Length>, stream: nat): Option<(nat, nat)>
    requires |dists| <= MAX_DISTANCES
  {
    match Decoded(dists, stream)
    case None => None
    case Some(d) =>
      var rest := Shr(stream, dists[d]);
      Some((DIST_BASE[d] + Low(rest, DIST_EXTRA[d]), Shr(rest, DIST_EXTRA[d])))
  }

  /** A match of the given length; its distance code comes next in the stream. */
  ghost function MatchStep(dists: seq<Length>, room: Room, out: Bytes, len: nat, stream: nat): Step
    requires |dists| <= MAX_DISTANCES && room.cap > 0
  {
    match DistanceOf(dists, stream)
    case None => Fail(BadCode)
    case Some((dist, rest)) => CopyStep(room, out, dist, len, rest)
  }

  /** A match whose length code is the i-th. */
  ghost function LengthStep(dists: seq<Length>, room: Room, out: Bytes, i: nat, stream: nat): Step
    requires |dists| <= MAX_DISTANCES && room.cap > 0 && i < 31
  {
    MatchStep(dists, room, out, LENGTH_BASE[i] + Low(stream, LENGTH_EXTRA[i]), Shr(stream, LENGTH_EXTRA[i]))
  }

  /** What one literal, match or end-of-block code does. */
  ghost function BlockStep(codes: Codes, room: Room, out: Bytes, stream: nat): Step
    requires codes.Valid() && room.cap > 0
  {
    match Decoded(codes.lens, stream)
    case None => Fail(BadCode)
    case Some(v) =>
      var rest := Shr(stream, codes.lens[v]);
      if v < END_OF_BLOCK then
        if room.Fits(|out| + 1) then Next(out + [v], rest) else Fail(OutOfSpace)
      else if v == END_OF_BLOCK then End(out, rest)
      else
        LengthStep(codes.dists, room, out, v - 257, rest)
  }

  datatype Outcome = Done(out: Bytes, stream: nat) | Failed(error: Failure) | OutOfFuel

  /** The block, in at most fuel steps. */
  ghost function Run(codes: Codes, room: Room, out: Bytes, stream: nat, fuel: nat): Outcome
    requires codes.Valid() && room.cap > 0
    decreases fuel
  {
    if fuel == 0 then OutOfFuel
    else
      match BlockStep(codes, room, out, stream)
      case Next(o, s) => Run(codes, room, o, s, fuel - 1)
      case End(o, s) => Done(o, s)
      case Fail(e) => Failed(e)
  }

  // ----- the output only grows

  lemma StepExtends(codes: Codes, room: Room, out: Bytes, stream: nat)
    requires codes.Valid() && room.cap > 0 && BlockStep(codes, room, out, stream).Next?
    ensures out <= BlockStep(codes, room, out, stream).out
  {
    hide Low, Shr;
  }

  /** A finished block keeps everything that was written before it and stays within the limit. */
  lemma {:induction false} RunExtends(codes: Codes, room: Room, out: Bytes, stream: nat, fuel: nat)
    requires codes.Valid() && room.cap > 0 && |out| <= room.Limit()
    requires Run(codes, room, out, stream, fuel).Done?
    ensures out <= Run(codes, room, out, stream, fuel).out
    ensures |Run(codes, room, out, stream, fuel).out| <= room.Limit()
    decreases fuel
  {
    hide BlockStep, Room.Limit;
    var step := BlockStep(codes, room, out, stream);
    if step.Next? {
      StepExtends(codes, room, out, stream);
      StepWithinLimit(codes, room, out, stream);
      RunExtends(codes, room, step.out, step.stream, fuel - 1);
    } else {
      EndKeeps(codes, room, out, stream);
    }
  }

  lemma EndKeeps(codes: Codes, room: Room, out: Bytes, stream: nat)
    requires codes.Valid() && room.cap > 0 && BlockStep(codes, room, out, stream).End?
    ensures BlockStep(codes, room, out, stream).out == out
  {
    hide Low, Shr, Decoded, Room.Fits, Room.Copy;
  }

  lemma StepWithinLimit(codes: Codes, room: Room, out: Bytes, stream: nat)
    requires codes.Valid() && room.cap > 0 && |out| <= room.Limit()
    requires BlockStep(codes, room, out, stream).Next?
    ensures |BlockStep(codes, room, out, stream).out| <= room.Limit()
  {
    hide Low, Shr, Room.Limit, LengthStep, Decoded, Room.Fits;
    var o := BlockStep(codes, room, out, stream).out;
    var v := Decoded(codes.lens, stream).value;
    if v < END_OF_BLOCK {
      room.FitsBelowLimit(|o|);
    } else {
      LengthWithinLimit(codes.dists, room, out, v - 257, Shr(stream, codes.lens[v]));
    }
  }

  lemma LengthWithinLimit(dists: seq<Length>, room: Room, out: Bytes, i: nat, stream: nat)
    requires |dists| <= MAX_DISTANCES && room.cap > 0 && i < 31 && LengthStep(dists, room, out, i, stream).Next?
    ensures |LengthStep(dists, room, out, i, stream).out| <= room.Limit()
  {
    hide Low, Shr, Room.Limit, Room.Copy, DistanceOf, Room.Fits;
    room.FitsBelowLimit(|LengthStep(dists, room, out, i, stream).out|);
  }

  // ----- when the fold ends

  /** Within some number of steps the block is finished or has failed. */
  ghost predicate Terminates(codes: Codes, room: Room, out: Bytes, stream: nat)
    requires codes.Valid() && room.cap > 0
  {
    exists fuel :: !Run(codes, room, out, stream, fuel).OutOfFuel?
  }

  /**
   The code of all zeros stands for one of the two length symbols of no length, 286 and 287,
   and a distance code of all zeros exists.
   */
  ghost predicate IdlesOnZeros(codes: Codes)
    requires codes.Valid()
  {
    && Decoded(codes.lens, 0).Some? && Decoded(codes.lens, 0).value >= 286
    && Decoded(codes.dists, 0).Some?
  }

  lemma {:induction false} ShrShrinks(a: nat, n: nat)
    requires n > 0
    ensures Shr(a, n) <= a && (a > 0 ==> Shr(a, n) < a)
    decreases n
  {
    if n > 1 {
      ShrShrinks(a / 2, n - 1);
    }
  }

  lemma ShrAtMost(a: nat, n: nat)
    ensures Shr(a, n) <= a
  {
    if n > 0 {
      ShrShrinks(a, n);
    }
  }

  lemma {:induction false} LowOfZero(n: nat)
    ensures Low(0, n) == 0
  {
    if n > 0 {
      LowOfZero(n - 1);
    }
  }

  /** Every step takes bits off the stream, unless nothing but zeros is left. */
  lemma StepConsumes(codes: Codes, room: Room, out: Bytes, stream: nat)
    requires codes.Valid() && room.cap > 0 && BlockStep(codes, room, out, stream).Next?
    ensures BlockStep(codes, room, out, stream).stream <= stream
    ensures stream > 0 ==> BlockStep(codes, room, out, stream).stream < stream
  {
    hide Shr, Low, Room.Copy, Room.Fits;
    var v := Decoded(codes.lens, stream).value;
    var s1 := Shr(stream, codes.lens[v]);
    ShrShrinks(stream, codes.lens[v]);
    if v > END_OF_BLOCK {
      var e := LENGTH_EXTRA[v - 257];
      var s2 := Shr(s1, e);
      ShrAtMost(s1, e);
      var d := Decoded(codes.dists, s2).value;
      ShrAtMost(s2, codes.dists[d]);
      ShrAtMost(Shr(s2, codes.dists[d]), DIST_EXTRA[d]);
    }
  }

  /** On the zero tail every step but an idle one adds to the output. */
  lemma StepOnZerosGrows(codes: Codes, room: Room, out: Bytes)
    requires codes.Valid() && room.cap > 0 && BlockStep(codes, room, out, 0).Next?
    requires !IdlesOnZeros(codes)
    ensures |BlockStep(codes, room, out, 0).out| > |out|
  {
    hide LengthStep, Room.Fits, Shr, Low;
    var v := Decoded(codes.lens, 0).value;
    ShrAtMost(0, codes.lens[v]);
    if v > END_OF_BLOCK {
      LengthOnZerosGrows(codes.dists, room, out, v - 257);
    }
  }

  lemma LengthOnZerosGrows(dists: seq<Length>, room: Room, out: Bytes, i: nat)
    requires |dists| <= MAX_DISTANCES && room.cap > 0 && i < 31 && LengthStep(dists, room, out, i, 0).Next?
    ensures Decoded(dists, 0).Some?
    ensures i < 29 ==> |LengthStep(dists, room, out, i, 0).out| > |out|
  {
    hide MatchStep, Room.Fits, Shr, Low;
    ShrAtMost(0, LENGTH_EXTRA[i]);
    MatchGrows(dists, room, out, LENGTH_BASE[i] + Low(0, LENGTH_EXTRA[i]), 0);
    if i < 29 {
      LengthIsPositive(i);
    }
  }

  lemma LengthIsPositive(i: nat)
    requires i < 29
    ensures LENGTH_BASE[i] >= 3
  {
  }

  lemma MatchGrows(dists: seq<Length>, room: Room, out: Bytes, len: nat, stream: nat)
    requires |dists| <= MAX_DISTANCES && room.cap > 0 && MatchStep(dists, room, out, len, stream).Next?
    ensures |MatchStep(dists, room, out, len, stream).out| == |out| + len
    ensures Decoded(dists, stream).Some?
  {
    hide Low, Shr, Room.Fits;
  }

  /** Unless it idles, a block ends on every stream and for every output so far. */
  lemma {:induction false} BlockEnds(codes: Codes, room: Room, out: Bytes, stream: nat) returns (fuel: nat)
    requires codes.Valid() && room.cap > 0 && |out| <= room.Limit()
    requires !IdlesOnZeros(codes)
    ensures !Run(codes, room, out, stream, fuel).OutOfFuel?
    decreases stream, room.Limit() - |out|
  {
    hide BlockStep, IdlesOnZeros, Room.Limit;
    var step := BlockStep(codes, room, out, stream);
    if step.Next? {
      StepConsumes(codes, room, out, stream);
      StepWithinLimit(codes, room, out, stream);
      if stream == 0 {
        StepOnZerosGrows(codes, room, out);
      }
      fuel := BlockEnds(codes, room, step.out, step.stream);
      fuel := fuel + 1;
    } else {
      fuel := 1;
    }
  }

  /** A block that idles never ends once enough output is there for its distance. */
  lemma {:induction false} IdleNeverEnds(codes: Codes, room: Room, out: Bytes, fuel: nat)
    requires codes.Valid() && room.cap > 0 && IdlesOnZeros(codes)
    requires DIST_BASE[Decoded(codes.dists, 0).value] <= |out| && room.Fits(|out|)
    ensures Run(codes, room, out, 0, fuel) == OutOfFuel
    decreases fuel
  {
    hide BlockStep, Room.Fits;
    if fuel > 0 {
      IdleStep(codes, room, out);
      IdleNeverEnds(codes, room, out, fuel - 1);
    }
  }

  lemma IdleStep(codes: Codes, room: Room, out: Bytes)
    requires codes.Valid() && room.cap > 0 && IdlesOnZeros(codes)
    requires DIST_BASE[Decoded(codes.dists, 0).value] <= |out| && room.Fits(|out|)
    ensures BlockStep(codes, room, out, 0) == Next(out, 0)
  {
    hide LengthStep, Room.Fits;
    var v := Decoded(codes.lens, 0).value;
    ShrAtMost(0, codes.lens[v]);
    LengthIdles(codes.dists, room, out, v - 257);
  }

  lemma LengthIdles(dists: seq<Length>, room: Room, out: Bytes, i: nat)
    requires |dists| <= MAX_DISTANCES && room.cap > 0 && 29 <= i < 31
    requires Decoded(dists, 0).Some? && DIST_BASE[Decoded(dists, 0).value] <= |out| && room.Fits(|out|)
    ensures LengthStep(dists, room, out, i, 0) == Next(out, 0)
  {
    hide Room.Copy, Room.Fits, Shr, Low;
    var d := Decoded(dists, 0).value;
    ShrAtMost(0, LENGTH_EXTRA[i]);
    LowOfZero(LENGTH_EXTRA[i]);
    ShrAtMost(0, dists[d]);
    LowOfZero(DIST_EXTRA[d]);
    ShrAtMost(0, DIST_EXTRA[d]);
  }

  /** A code ends on every input exactly when it does not idle on zeros. */
  lemma EndsExactlyWhenNotIdle(codes: Codes)
    requires codes.Valid()
    ensures !IdlesOnZeros(codes)
            <==> forall room: Room, out: Bytes, stream: nat | room.cap > 0 && |out| <= room.Limit() ::
                   Terminates(codes, room, out, stream)
  {
    hide IdlesOnZeros, Run;
    if !IdlesOnZeros(codes) {
      forall room: Room, out: Bytes, stream: nat | room.cap > 0 && |out| <= room.Limit()
        ensures Terminates(codes, room, out, stream)
      {
        var fuel := BlockEnds(codes, room, out, stream);
      }
    } else {
      var room, out := Room(0x8000, false, 0, _ => 0), seq(0x8000, _ => 0 as uint8);
      forall fuel: nat ensures Run(codes, room, out, 0, fuel).OutOfFuel? {
        IdleRoom(codes, room, out);
        IdleNeverEnds(codes, room, out, fuel);
      }
      assert !Terminates(codes, room, out, 0);
    }
  }

  lemma IdleRoom(codes: Codes, room: Room, out: Bytes)
    requires codes.Valid() && IdlesOnZeros(codes) && room.cap == 0x8000 == |out|
    ensures DIST_BASE[Decoded(codes.dists, 0).value] <= |out| && room.Fits(|out|)
  {
    hide Decoded, KraftHolds, Grow, SymbolBits, StreamBits;
    DistanceIsSmall(Decoded(codes.dists, 0).value);
  }

  lemma DistanceIsSmall(d: nat)
    requires d < MAX_DISTANCES
    ensures DIST_BASE[d] <= 0x8000
  {
  }

  // ----- there are codes that idle

  /** The lengths of a code that has only one symbol, after v that are not used. */
  function OnlySymbol(v: nat): (lens: seq<Length>)
    ensures |lens| == v + 1
  {
    seq(v, _ => 0) + [1]
  }

  lemma {:induction false} BeforeOnlySymbol(v: nat, n: nat)
    requires n <= v
    ensures Rank(OnlySymbol(v), n, 1) == 0 && Kraft(OnlySymbol(v), n) == 0
  {
    if n > 0 {
      assert OnlySymbol(v)[n - 1] == 0;
      BeforeOnlySymbol(v, n - 1);
    }
  }

  /** Its code is a single zero. */
  lemma {:induction false} OnlySymbolIsZero(v: nat)
    ensures KraftHolds(OnlySymbol(v)) && Decoded(OnlySymbol(v), 0) == Some(v)
  {
    var lens := OnlySymbol(v);
    BeforeOnlySymbol(v, v);
    assert Kraft(lens, v + 1) == Pow2(14);
    assert Code(lens, v) == NextCode(lens, 1) + Rank(lens, v, 1) && NextCode(lens, 1) == 0;
    assert SymbolBits(lens, v) == [false] && StreamBits(0, 1) == [false];
    assert Matches(lens, v, 0);
    hide SymbolBits, StreamBits;
    MatchIsUnique(lens, v, Decoded(lens, 0).value, 0);
  }

  /** A code with the symbol 286 alone, and one with the shortest distance alone. */
  function IdlingCodes(): Codes {
    Codes(OnlySymbol(286), OnlySymbol(0))
  }

  /** With these codes and one byte of output, the zeros behind the end of the input are read forever. */
  lemma IdlingCodesNeverEnd(room: Room, b: uint8, fuel: nat)
    requires room.cap > 0
    ensures IdlingCodes().Valid() && IdlesOnZeros(IdlingCodes())
    ensures Run(IdlingCodes(), room, [b], 0, fuel) == OutOfFuel
  {
    hide KraftHolds, Decoded, Run;
    OnlySymbolIsZero(286);
    OnlySymbolIsZero(0);
    IdleNeverEnds(IdlingCodes(), room, [b], fuel);
  }

  /** More fuel changes nothing once a block has ended. */
  lemma {:induction false} FuelIsEnough(codes: Codes, room: Room, out: Bytes, stream: nat, fuel: nat, more: nat)
    requires codes.Valid() && room.cap > 0 && fuel <= more
    requires !Run(codes, room, out, stream, fuel).OutOfFuel?
    ensures Run(codes, room, out, stream, more) == Run(codes, room, out, stream, fuel)
    decreases fuel
  {
    hide BlockStep;
    var step := BlockStep(codes, room, out, stream);
    if step.Next? {
      FuelIsEnough(codes, room, step.out, step.stream, fuel - 1, more - 1);
    }
  }

  // ----- codes that stay within the alphabets of the RFC

  /** The length codes 286 and 287 and the distance codes 30 and 31, which never occur in valid data, are unused. */
  predicate WithinAlphabets(codes: Codes) {
    && (forall v :: 286 <= v < |codes.lens| ==> codes.lens[v] == 0)
    && (forall d :: 30 <= d < |codes.dists| ==> codes.dists[d] == 0)
  }

  lemma StepReadsWritten(codes: Codes, room: Room, out: Bytes, stream: nat, memory: nat -> uint8)
    requires codes.Valid() && WithinAlphabets(codes) && room.cap > 0
    ensures BlockStep(codes, room.(memory := memory), out, stream) == BlockStep(codes, room, out, stream)
  {
    hide LengthStep, Shr;
    if Decoded(codes.lens, stream).Some? && Decoded(codes.lens, stream).value > END_OF_BLOCK {
      var v := Decoded(codes.lens, stream).value;
      LengthReadsWritten(codes, room, out, v - 257, Shr(stream, codes.lens[v]), memory);
    }
  }

  lemma LengthReadsWritten(codes: Codes, room: Room, out: Bytes, i: nat, stream: nat, memory: nat -> uint8)
    requires codes.Valid() && WithinAlphabets(codes) && room.cap > 0 && i < 31
    ensures LengthStep(codes.dists, room.(memory := memory), out, i, stream)
            == LengthStep(codes.dists, room, out, i, stream)
  {
    hide Shr, Low, CopyBack;
    var rest := Shr(stream, LENGTH_EXTRA[i]);
    if Decoded(codes.dists, rest).Some? {
      DistanceIsPositive(Decoded(codes.dists, rest).value);
    }
  }

  lemma DistanceIsPositive(d: nat)
    requires d < MAX_DISTANCES
    ensures d < 30 ==> DIST_BASE[d] >= 1
  {
  }

  /** For codes within the alphabets nothing depends on bytes that were not written. */
  lemma {:induction false} ValidCodesReadWritten(codes: Codes, room: Room, out: Bytes, stream: nat, fuel: nat,
                                                 memory: nat -> uint8)
    requires codes.Valid() && WithinAlphabets(codes) && room.cap > 0
    ensures Run(codes, room.(memory := memory), out, stream, fuel) == Run(codes, room, out, stream, fuel)
    decreases fuel
  {
    hide BlockStep, WithinAlphabets;
    if fuel > 0 {
      StepReadsWritten(codes, room, out, stream, memory);
      var step := BlockStep(codes, room, out, stream);
      if step.Next? {
        ValidCodesReadWritten(codes, room, step.out, step.stream, fuel - 1, memory);
      }
    }
  }

  /** For codes within the alphabets every block ends. */
  lemma ValidCodesEnd(codes: Codes, room: Room, out: Bytes, stream: nat) returns (fuel: nat)
    requires codes.Valid() && WithinAlphabets(codes) && room.cap > 0 && |out| <= room.Limit()
    ensures !Run(codes, room, out, stream, fuel).OutOfFuel?
  {
    hide Run, Room.Limit;
    fuel := BlockEnds(codes, room, out, stream);
  }
}
