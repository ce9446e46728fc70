/**
 Section 3.2.5 of RFC 1951 by itself: which code and which extra bits stand for a length or a distance,
 how a block of literals and copies is written, and that the decoder reads back every such block.
 */
module Deflate {
  import opened Wrappers
  import opened Words
  import opened Canonical
  import opened Lookup
  import opened HuffmanTable
  import opened Lz77

  // ----- the codes of lengths and distances

  /** How often x must be halved until it is less than m. */
  function Halvings(x: nat, m: nat): nat
    requires m > 0
  {
    if x < m then 0 else 1 + Halvings(x / 2, m)
  }

  /**
   A length from 3 on: each group of four codes after the first two takes one more extra bit, which are the
   low bits of the length less 3; the largest length has a code of its own.
   */
  function LengthCode(len: nat): nat
    requires len >= 3
  {
    if len == 258 then 28 else 4 * LengthBits(len) + Shr(len - 3, LengthBits(len))
  }

  function LengthBits(len: nat): nat
    requires len >= 3
  {
    if len == 258 then 0 else Halvings(len - 3, 8)
  }

  function LengthRest(len: nat): nat
    requires len >= 3
  {
    if len == 258 then 0 else Low(len - 3, LengthBits(len))
  }

  /** A distance: the same with groups of two codes. */
  function DistanceCode(dist: nat): nat
    requires dist > 0
  {
    2 * DistanceBits(dist) + Shr(dist - 1, DistanceBits(dist))
  }

  function DistanceBits(dist: nat): nat
    requires dist > 0
  {
    Halvings(dist - 1, 4)
  }

  function DistanceRest(dist: nat): nat
    requires dist > 0
  {
    Low(dist - 1, DistanceBits(dist))
  }

  lemma SmallPowers()
    ensures Pow2(0) == 1 && Pow2(1) == 2 && Pow2(2) == 4 && Pow2(3) == 8 && Pow2(4) == 16 && Pow2(5) == 32
    ensures Pow2(6) == 64 && Pow2(7) == 128 && Pow2(8) == 256 && Pow2(9) == 512 && Pow2(10) == 1024
    ensures Pow2(11) == 2048 && Pow2(12) == 4096 && Pow2(13) == 8192
  {
  }

  /** The lengths of one code end where those of the next begin; only the last one begins one early. */
  lemma LengthsAreAdjacent(i: nat)
    requires i < 28
    ensures LENGTH_BASE[i + 1] == LENGTH_BASE[i] + Pow2(LENGTH_EXTRA[i]) - if i == 27 then 1 else 0
  {
    SmallPowers();
    if i < 7 {
    } else if i < 14 {
    } else if i < 21 {
    } else {
    }
  }

  lemma LengthEnds()
    ensures LENGTH_BASE[0] == 3 && LENGTH_BASE[28] == 258 && LENGTH_EXTRA[28] == 0
  {
  }

  lemma DistancesAreAdjacent(d: nat)
    requires d < 29
    ensures DIST_BASE[d + 1] == DIST_BASE[d] + Pow2(DIST_EXTRA[d])
  {
    hide *;
    if d < 15 {
      NearDistances(d);
    } else {
      FarDistances(d);
    }
  }

  lemma NearDistances(d: nat)
    requires d < 15
    ensures DIST_BASE[d + 1] == DIST_BASE[d] + Pow2(DIST_EXTRA[d])
  {
    SmallPowers();
  }

  lemma FarDistances(d: nat)
    requires 15 <= d < 29
    ensures DIST_BASE[d + 1] == DIST_BASE[d] + Pow2(DIST_EXTRA[d])
  {
    SmallPowers();
  }

  lemma DistanceEnds()
    ensures DIST_BASE[0] == 1 && DIST_BASE[29] + Pow2(DIST_EXTRA[29]) == 0x8001
  {
    SmallPowers();
  }

  lemma LengthExtraBits(e: nat, q: nat)
    requires e <= 5 && q < 8 && (e == 0 || q >= 4)
    ensures 4 * e + q < 28 && LENGTH_EXTRA[4 * e + q] == e
  {
  }

  lemma DistanceExtraBits(e: nat, q: nat)
    requires e <= 13 && q < 4 && (e == 0 || q >= 2)
    ensures 2 * e + q < 30 && DIST_EXTRA[2 * e + q] == e
  {
  }

  /** The tables have that structure: codes 4e + q with e extra bits start at 3 + q * 2^e. */
  lemma {:induction false} LengthTable(e: nat, q: nat)
    requires e <= 5 && q < 8 && (e == 0 || q >= 4)
    ensures 4 * e + q < 28 && LENGTH_EXTRA[4 * e + q] == e && LENGTH_BASE[4 * e + q] == 3 + q * Pow2(e)
    decreases e, q
  {
    hide *;
    LengthExtraBits(e, q);
    if 4 * e + q == 0 {
      LengthEnds();
    } else if e == 0 || q > 4 {
      LengthTable(e, q - 1);
      LengthsAreAdjacent(4 * e + q - 1);
      StepOfRow(q, Pow2(e));
    } else {
      LengthTable(e - 1, 7);
      LengthsAreAdjacent(4 * e + 3);
      Pow2Doubles(e);
    }
    PowOfZero();
  }

  /** And of distances, codes 2e + q start at 1 + q * 2^e. */
  lemma {:induction false} DistanceTable(e: nat, q: nat)
    requires e <= 13 && q < 4 && (e == 0 || q >= 2)
    ensures 2 * e + q < 30 && DIST_EXTRA[2 * e + q] == e && DIST_BASE[2 * e + q] == 1 + q * Pow2(e)
    decreases e, q
  {
    hide *;
    DistanceExtraBits(e, q);
    if 2 * e + q == 0 {
      DistanceEnds();
    } else if e == 0 || q > 2 {
      DistanceTable(e, q - 1);
      DistancesAreAdjacent(2 * e + q - 1);
      StepOfRow(q, Pow2(e));
    } else {
      DistanceTable(e - 1, 3);
      DistancesAreAdjacent(2 * e + 1);
      Pow2Doubles(e);
    }
    PowOfZero();
  }

  lemma StepOfRow(q: nat, p: nat)
    requires q > 0
    ensures q * p == (q - 1) * p + p
  {
  }

  lemma Pow2Doubles(e: nat)
    requires e > 0
    ensures Pow2(e) == 2 * Pow2(e - 1)
  {
  }

  lemma PowOfZero()
    ensures Pow2(0) == 1
  {
  }

  // ----- every length and every distance is coded once

  lemma {:induction false} HalvingsLeave(x: nat, m: nat)
    requires m > 1
    ensures var e := Halvings(x, m); Shr(x, e) < m && (e > 0 ==> 2 * Shr(x, e) + 1 >= m)
  {
    if x >= m {
      HalvingsLeave(x / 2, m);
    }
  }

  lemma {:induction false} HalvingsAre(x: nat, m: nat, e: nat)
    requires m > 1 && m % 2 == 0 && Shr(x, e) < m && (e > 0 ==> 2 * Shr(x, e) >= m)
    ensures Halvings(x, m) == e
  {
    if e > 0 {
      ManyHalvings(x, m, e);
      HalvingsAre(x / 2, m, e - 1);
    }
  }

  lemma {:induction false} ManyHalvings(x: nat, m: nat, e: nat)
    requires m > 1 && m % 2 == 0 && e > 0 && 2 * Shr(x, e) >= m
    ensures x >= m
  {
    if e > 1 {
      ManyHalvings(x / 2, m, e - 1);
    }
  }

  lemma {:induction false} FewHalvings(x: nat, m: nat, k: nat)
    requires m > 1 && x < m * Pow2(k)
    ensures Halvings(x, m) <= k
  {
    if k > 0 && x >= m {
      MulSwap(m, Pow2(k - 1));
      FewHalvings(x / 2, m, k - 1);
    }
  }

  /** The code and the extra bits of a length mean that length by the tables. */
  lemma LengthIsCoded(len: nat)
    requires 3 <= len <= 258
    ensures LengthCode(len) < 29 && LENGTH_EXTRA[LengthCode(len)] == LengthBits(len)
    ensures LengthRest(len) < Pow2(LengthBits(len)) && LENGTH_BASE[LengthCode(len)] + LengthRest(len) == len
  {
    hide Halvings, Shr, Low, Pow2;
    LengthEnds();
    PowOfZero();
    if len < 258 {
      var x, e := len - 3, LengthBits(len);
      HalvingsLeave(x, 8);
      SmallPowers();
      FewHalvings(x, 8, 5);
      LengthTable(e, Shr(x, e));
      ShrSplit(x, e);
    }
  }

  lemma DistanceIsCoded(dist: nat)
    requires 0 < dist <= 0x8000
    ensures DistanceCode(dist) < 30 && DIST_EXTRA[DistanceCode(dist)] == DistanceBits(dist)
    ensures DistanceRest(dist) < Pow2(DistanceBits(dist))
    ensures DIST_BASE[DistanceCode(dist)] + DistanceRest(dist) == dist
  {
    hide Halvings, Shr, Low, Pow2;
    var y, e := dist - 1, DistanceBits(dist);
    HalvingsLeave(y, 4);
    SmallPowers();
    FewHalvings(y, 4, 13);
    DistanceTable(e, Shr(y, e));
    ShrSplit(y, e);
  }

  /** No other code with other extra bits means the same length; 258 alone could also be coded by the last but one. */
  lemma LengthIsCodedOnce(e: nat, q: nat, r: nat)
    requires e <= 5 && q < 8 && (e == 0 || q >= 4) && r < Pow2(e)
    ensures var len := LENGTH_BASE[4 * e + q] + r;
            3 <= len <= 258 && (len < 258 ==> LengthCode(len) == 4 * e + q && LengthRest(len) == r)
  {
    hide *;
    var x := q * Pow2(e) + r;
    LengthTable(e, q);
    RowFits(e, q, r);
    ShrIs(x, e, q, r);
    HalvingsAre(x, 8, e);
    CodeOfRow(x + 3, e);
  }

  lemma CodeOfRow(len: nat, e: nat)
    requires 3 <= len <= 258 && Halvings(len - 3, 8) == e
    ensures len < 258 ==> LengthCode(len) == 4 * e + Shr(len - 3, e) && LengthRest(len) == Low(len - 3, e)
  {
    hide Halvings, Shr, Low;
  }

  lemma RowFits(e: nat, q: nat, r: nat)
    requires e <= 5 && q < 8 && r < Pow2(e)
    ensures q * Pow2(e) + r < 256
  {
    SmallPowers();
    MulMonotone(q + 1, 8, Pow2(e));
    assert (q + 1) * Pow2(e) == q * Pow2(e) + Pow2(e);
    PowMonotone(e, 5);
  }

  lemma {:induction false} PowMonotone(a: nat, b: nat)
    requires a <= b
    ensures Pow2(a) <= Pow2(b)
  {
    if a < b {
      PowMonotone(a, b - 1);
    }
  }

  lemma DistanceIsCodedOnce(e: nat, q: nat, r: nat)
    requires e <= 13 && q < 4 && (e == 0 || q >= 2) && r < Pow2(e)
    ensures var dist := DIST_BASE[2 * e + q] + r; dist > 0 && DistanceCode(dist) == 2 * e + q && DistanceRest(dist) == r
  {
    hide Halvings, Shr, Low, Pow2;
    DistanceTable(e, q);
    ShrIs(q * Pow2(e) + r, e, q, r);
    HalvingsAre(q * Pow2(e) + r, 4, e);
  }

  // ----- an encoder

  /** What a block is made of: single bytes, and copies of earlier ones. */
  datatype Token = Literal(b: uint8) | Copy(len: nat, dist: nat)

  /** The output after a token. */
  function Expanded(out: Bytes, token: Token): (r: Bytes)
    requires token.Copy? ==> 0 < token.dist <= |out|
    ensures |r| == |out| + if token.Copy? then token.len else 1
  {
    match token
    case Literal(b) => out + [b]
    case Copy(len, dist) =>
      ModBounds(dist);
      out + seq(len, k requires 0 <= k < len => out[|out| - dist + k % dist])
  }

  lemma ModBounds(dist: nat)
    requires dist > 0
    ensures forall k: nat :: 0 <= k % dist < dist
  {
  }

  function AllExpanded(out: Bytes, tokens: seq<Token>): Bytes
    requires Possible(out, tokens)
    decreases |tokens|
  {
    if tokens == [] then out else AllExpanded(Expanded(out, tokens[0]), tokens[1..])
  }

  /** Lengths and distances are in range, and no copy starts before the output. */
  predicate Possible(out: Bytes, tokens: seq<Token>)
    decreases |tokens|
  {
    tokens != [] ==>
      && (tokens[0].Copy? ==> 3 <= tokens[0].len <= 258 && 0 < tokens[0].dist <= 0x8000 && tokens[0].dist <= |out|)
      && Possible(Expanded(out, tokens[0]), tokens[1..])
  }

  predicate HasCode(codes: Codes, token: Token) {
    match token
    case Literal(b) => Used(codes.lens, b)
    case Copy(len, dist) =>
      && len >= 3 && dist > 0
      && Used(codes.lens, 257 + LengthCode(len)) && Used(codes.dists, DistanceCode(dist))
  }

  /** The n low bits of v, lowest first, and then the rest of the stream. */
  function Bits(v: nat, n: nat, rest: nat): nat {
    v + Shl(rest, n)
  }

  /** A Huffman code, highest bit first, and then the rest of the stream. */
  function Symbol(lens: seq<Length>, v: nat, rest: nat): nat
    requires v < |lens|
  {
    Bits(Reverse(Code(lens, v), lens[v]), lens[v], rest)
  }

  function EncodedToken(codes: Codes, token: Token, rest: nat): nat
    requires HasCode(codes, token)
  {
    match token
    case Literal(b) => Symbol(codes.lens, b, rest)
    case Copy(len, dist) =>
      var behind := Symbol(codes.dists, DistanceCode(dist), Bits(DistanceRest(dist), DistanceBits(dist), rest));
      Symbol(codes.lens, 257 + LengthCode(len), Bits(LengthRest(len), LengthBits(len), behind))
  }

  /** A block: its tokens and the end-of-block code. */
  function Encoded(codes: Codes, tokens: seq<Token>, rest: nat): nat
    requires (forall token :: token in tokens ==> HasCode(codes, token)) && Used(codes.lens, END_OF_BLOCK)
    decreases |tokens|
  {
    if tokens == [] then Symbol(codes.lens, END_OF_BLOCK, rest)
    else EncodedToken(codes, tokens[0], Encoded(codes, tokens[1..], rest))
  }

  // ----- what is encoded is decoded

  lemma BitsAreRead(v: nat, n: nat, rest: nat)
    requires v < Pow2(n)
    ensures Low(Bits(v, n, rest), n) == v && Shr(Bits(v, n, rest), n) == rest
  {
    ShrIs(Bits(v, n, rest), n, rest, v);
  }

  lemma SymbolIsRead(lens: seq<Length>, v: nat, rest: nat)
    requires KraftHolds(lens) && Used(lens, v)
    ensures Decoded(lens, Symbol(lens, v, rest)) == Some(v) && Shr(Symbol(lens, v, rest), lens[v]) == rest
  {
    hide Code, Reverse, Shl, Shr, Low, SymbolBits, StreamBits, Pow2;
    var s, stream := lens[v], Symbol(lens, v, rest);
    CodeFits(lens, v);
    ReverseBelow(Code(lens, v), s);
    BitsAreRead(Reverse(Code(lens, v), s), s, rest);
    ReverseLow(stream, s, s);
    ReverseTwice(Code(lens, v), s);
    LowOfSmall(Code(lens, v), s);
    MatchesByReversal(lens, v, stream);
    MatchIsUnique(lens, v, Decoded(lens, stream).value, stream);
  }

  lemma LowOfSmall(a: nat, n: nat)
    requires a < Pow2(n)
    ensures Low(a, n) == a
  {
    ShrIs(a, n, 0, a);
  }

  lemma ExpandedIsCopy(room: Room, out: Bytes, len: nat, dist: nat)
    requires 0 < dist <= |out|
    ensures room.Copy(out, dist, len) == Expanded(out, Copy(len, dist))
  {
    var c, x := CopyBack(out, dist, len), Expanded(out, Copy(len, dist));
    forall i | 0 <= i < |c| ensures c[i] == x[i] {
      if i >= |out| {
        CopyIsPeriodic(out, dist, len, i - |out|);
      } else {
        assert c[i] == c[..|out|][i];
      }
    }
  }

  lemma DistanceIsRead(dists: seq<Length>, dist: nat, rest: nat)
    requires |dists| <= MAX_DISTANCES && KraftHolds(dists) && 0 < dist <= 0x8000 && Used(dists, DistanceCode(dist))
    ensures DistanceOf(dists, Symbol(dists, DistanceCode(dist), Bits(DistanceRest(dist), DistanceBits(dist), rest)))
            == Some((dist, rest))
  {
    hide Symbol, Bits, Decoded, KraftHolds, Shr, Low, DistanceCode, DistanceBits, DistanceRest;
    DistanceIsCoded(dist);
    SymbolIsRead(dists, DistanceCode(dist), Bits(DistanceRest(dist), DistanceBits(dist), rest));
    BitsAreRead(DistanceRest(dist), DistanceBits(dist), rest);
  }

  /** The length code has been read, its extra bits and the distance have not. */
  lemma CopyIsRead(dists: seq<Length>, room: Room, out: Bytes, len: nat, dist: nat, rest: nat, behind: nat)
    requires |dists| <= MAX_DISTANCES && KraftHolds(dists) && room.cap > 0
    requires 3 <= len <= 258 && 0 < dist <= 0x8000 && dist <= |out| && room.Fits(|out| + len)
    requires Used(dists, DistanceCode(dist))
    requires behind == Symbol(dists, DistanceCode(dist), Bits(DistanceRest(dist), DistanceBits(dist), rest))
    ensures LengthCode(len) < 29
    ensures LengthStep(dists, room, out, LengthCode(len), Bits(LengthRest(len), LengthBits(len), behind))
            == Next(Expanded(out, Copy(len, dist)), rest)
  {
    hide Symbol, Bits, KraftHolds, Shr, Low, DistanceOf, LengthCode, LengthBits, LengthRest, Room.Fits, Room.Copy,
         Expanded;
    LengthIsCoded(len);
    DistanceIsRead(dists, dist, rest);
    BitsAreRead(LengthRest(len), LengthBits(len), behind);
    ExpandedIsCopy(room, out, len, dist);
  }

  lemma TokenIsRead(codes: Codes, room: Room, out: Bytes, token: Token, rest: nat)
    requires codes.Valid() && room.cap > 0 && HasCode(codes, token)
    requires token.Copy? ==> 3 <= token.len <= 258 && 0 < token.dist <= 0x8000 && token.dist <= |out|
    requires room.Fits(|Expanded(out, token)|)
    ensures BlockStep(codes, room, out, EncodedToken(codes, token, rest)) == Next(Expanded(out, token), rest)
  {
    hide Symbol, Bits, Decoded, KraftHolds, Shr, Low, LengthCode, LengthBits, LengthRest, DistanceCode, DistanceBits,
         DistanceRest, Room.Fits, LengthStep;
    match token
    case Literal(b) => SymbolIsRead(codes.lens, b, rest);
    case Copy(len, dist) =>
      var behind := Symbol(codes.dists, DistanceCode(dist), Bits(DistanceRest(dist), DistanceBits(dist), rest));
      SymbolIsRead(codes.lens, 257 + LengthCode(len), Bits(LengthRest(len), LengthBits(len), behind));
      CopyIsRead(codes.dists, room, out, len, dist, rest, behind);
  }

  lemma {:induction false} ExpandedGrows(out: Bytes, tokens: seq<Token>)
    requires Possible(out, tokens)
    ensures |out| <= |AllExpanded(out, tokens)|
    decreases |tokens|
  {
    if tokens != [] {
      ExpandedGrows(Expanded(out, tokens[0]), tokens[1..]);
    }
  }

  lemma FitsLess(room: Room, m: nat, n: nat)
    requires room.cap > 0 && m <= n && room.Fits(n)
    ensures room.Fits(m)
  {
    GrowMonotone(room.cap, m, n);
  }

  /** Every block of literals and copies that fits into the buffer is decoded, whatever comes behind it. */
  lemma {:induction false} EncodedIsDecoded(codes: Codes, room: Room, out: Bytes, tokens: seq<Token>, rest: nat)
    requires codes.Valid() && room.cap > 0 && Possible(out, tokens)
    requires (forall token :: token in tokens ==> HasCode(codes, token)) && Used(codes.lens, END_OF_BLOCK)
    requires room.Fits(|AllExpanded(out, tokens)|)
    ensures Run(codes, room, out, Encoded(codes, tokens, rest), |tokens| + 1) == Done(AllExpanded(out, tokens), rest)
    decreases |tokens|
  {
    hide Symbol, Decoded, KraftHolds, EncodedToken, Expanded, Room.Fits, HasCode, Shr;
    if tokens == [] {
      hide LengthStep;
      SymbolIsRead(codes.lens, END_OF_BLOCK, rest);
    } else {
      hide BlockStep;
      assert tokens[0] in tokens && forall token :: token in tokens[1..] ==> token in tokens;
      var next := Expanded(out, tokens[0]);
      ExpandedGrows(next, tokens[1..]);
      FitsLess(room, |next|, |AllExpanded(out, tokens)|);
      TokenIsRead(codes, room, out, tokens[0], Encoded(codes, tokens[1..], rest));
      EncodedIsDecoded(codes, room, next, tokens[1..], rest);
    }
  }
}
