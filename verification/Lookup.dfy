/**
 What decoding one symbol means, and why a 9-bit table of reversed codes followed by a search
 through left-aligned code ranges finds it. A bit stream is a natural number: its next bit is
 the lowest one, and it ends in zeros.
 */
module Lookup {
  import opened Wrappers
  import opened Words
  import opened Canonical

  const FAST_BITS := 9
  const LOOKAHEAD := 16

  /** The next n bits of a stream, in the order they arrive. */
  function StreamBits(stream: nat, n: nat): (bits: seq<bool>)
    ensures |bits| == n
  {
    if n == 0 then [] else [stream % 2 == 1] + StreamBits(stream / 2, n - 1)
  }

  /** Symbol v's code is what the stream continues with. */
  predicate Matches(lens: seq<Length>, v: nat, stream: nat) {
    Used(lens, v) && SymbolBits(lens, v) == StreamBits(stream, lens[v])
  }

  /** The symbol whose code the stream continues with, if there is one. */
  ghost function Decoded(lens: seq<Length>, stream: nat): (r: Option<nat>)
    ensures r.Some? ==> Matches(lens, r.value, stream)
    ensures r.None? ==> forall v :: !Matches(lens, v, stream)
  {
    if v: nat :| Matches(lens, v, stream) then Some(v) else None
  }

  lemma {:induction false} StreamBitsPrefix(stream: nat, s: nat, t: nat)
    requires s <= t
    ensures StreamBits(stream, t)[..s] == StreamBits(stream, s)
    decreases s
  {
    if s > 0 {
      StreamBitsPrefix(stream / 2, s - 1, t - 1);
    }
  }

  /** At most one symbol matches, so Decoded has no choice. */
  lemma {:induction false} MatchIsUnique(lens: seq<Length>, v: nat, w: nat, stream: nat)
    requires KraftHolds(lens) && Matches(lens, v, stream) && Matches(lens, w, stream)
    ensures v == w
  {
    if v != w {
      if lens[v] <= lens[w] {
        StreamBitsPrefix(stream, lens[v], lens[w]);
        CodesArePrefixFree(lens, v, w);
      } else {
        StreamBitsPrefix(stream, lens[w], lens[v]);
        CodesArePrefixFree(lens, w, v);
      }
    }
  }

  // ----- bit reversal

  /** The n low bits of x in reverse order. */
  function Reverse(x: nat, n: nat): nat {
    if n == 0 then 0 else x % 2 * Pow2(n - 1) + Reverse(x / 2, n - 1)
  }

  lemma {:induction false} ReverseBelow(x: nat, n: nat)
    ensures Reverse(x, n) < Pow2(n)
  {
    if n > 0 {
      ReverseBelow(x / 2, n - 1);
      MulMonotone(x % 2, 1, Pow2(n - 1));
    }
  }

  lemma MulThree(a: nat, b: nat, c: nat)
    ensures a * b * c == a * (b * c)
  {
  }

  lemma MulAdd(a: nat, b: nat, c: nat)
    ensures (a + b) * c == a * c + b * c
  {
  }

  lemma {:induction false} ReverseSplit(x: nat, a: nat, b: nat)
    ensures Reverse(x, a + b) == Reverse(x, a) * Pow2(b) + Reverse(Shr(x, a), b)
    decreases a
  {
    if a == 0 {
      assert Pow2(0) == 1;
    } else {
      ReverseSplit(x / 2, a - 1, b);
      Pow2Add(a - 1, b);
      MulThree(x % 2, Pow2(a - 1), Pow2(b));
      MulAdd(x % 2 * Pow2(a - 1), Reverse(x / 2, a - 1), Pow2(b));
    }
  }

  /** The first s bits of the reversed lookahead are the reversal of the first s bits. */
  lemma {:induction false} ReverseTop(x: nat, s: nat, n: nat)
    requires s <= n
    ensures Shr(Reverse(x, n), n - s) == Reverse(x, s)
  {
    hide Reverse, Pow2;
    ReverseSplit(x, s, n - s);
    ReverseBelow(Shr(x, s), n - s);
    ShrIs(Reverse(x, n), n - s, Reverse(x, s), Reverse(Shr(x, s), n - s));
  }

  /** Only the n low bits count. */
  lemma {:induction false} ReverseLow(x: nat, s: nat, n: nat)
    requires s <= n
    ensures Reverse(Low(x, n), s) == Reverse(x, s)
    decreases s
  {
    if s > 0 {
      ReverseLow(x / 2, s - 1, n - 1);
    }
  }

  lemma {:induction false} ReverseLast(x: nat, n: nat)
    requires n > 0
    ensures Reverse(x, n) == 2 * Reverse(x, n - 1) + Shr(x, n - 1) % 2
  {
    ReverseSplit(x, n - 1, 1);
    assert Pow2(1) == 2;
    assert Reverse(Shr(x, n - 1), 1) == Shr(x, n - 1) % 2;
  }

  lemma {:induction false} ReverseTwice(x: nat, n: nat)
    ensures Reverse(Reverse(x, n), n) == Low(x, n)
    decreases n
  {
    if n > 0 {
      ReverseTwice(x / 2, n - 1);
      ReverseBelow(x / 2, n - 1);
      ReverseOfTop(x % 2, Reverse(x / 2, n - 1), n);
    }
  }

  lemma {:induction false} ReverseOfTop(b: nat, z: nat, n: nat)
    requires n > 0 && b < 2 && z < Pow2(n - 1)
    ensures Reverse(b * Pow2(n - 1) + z, n) == 2 * Reverse(z, n - 1) + b
  {
    hide *;
    var y := b * Pow2(n - 1) + z;
    ShrIs(y, n - 1, b, z);
    ReverseLast(y, n);
    ReverseLow(y, n - 1, n - 1);
  }

  lemma {:induction false} CodeBitsTop(b: nat, y: nat, n: nat)
    requires n > 0 && b < 2 && y < Pow2(n - 1)
    ensures CodeBits(b * Pow2(n - 1) + y, n) == [b == 1] + CodeBits(y, n - 1)
    decreases n
  {
    if n > 1 {
      var x := b * Pow2(n - 1) + y;
      CodeBitsTop(b, y / 2, n - 1);
      MulSwap(b, Pow2(n - 2));
      assert x / 2 == b * Pow2(n - 2) + y / 2 && x % 2 == y % 2;
    } else {
      assert Pow2(0) == 1;
      assert CodeBits(b, 1) == CodeBits(b / 2, 0) + [b % 2 == 1];
    }
  }

  /** The reversed bits, read from the top, are the bits in stream order. */
  lemma {:induction false} ReverseIsStreamOrder(x: nat, n: nat)
    ensures CodeBits(Reverse(x, n), n) == StreamBits(x, n)
    decreases n
  {
    if n > 0 {
      ReverseIsStreamOrder(x / 2, n - 1);
      ReverseBelow(x / 2, n - 1);
      CodeBitsTop(x % 2, Reverse(x / 2, n - 1), n);
    }
  }

  // ----- matching by numbers

  /** A symbol matches exactly when its code is the reversal of that many stream bits. */
  lemma {:induction false} MatchesByReversal(lens: seq<Length>, v: nat, stream: nat)
    requires KraftHolds(lens) && Used(lens, v)
    ensures Matches(lens, v, stream) <==> Reverse(stream, lens[v]) == Code(lens, v)
  {
    hide Code, Reverse, CodeBits, StreamBits;
    var s := lens[v];
    ReverseIsStreamOrder(stream, s);
    ReverseBelow(stream, s);
    CodeFits(lens, v);
    if Matches(lens, v, stream) {
      CodeBitsInjective(Reverse(stream, s), Code(lens, v), s);
    }
  }

  /** Where the codes of length up to l end, aligned to 16 bits: maxcode[l]. */
  function MaxCode(lens: seq<Length>, l: nat): nat
    requires l <= LOOKAHEAD
  {
    Shl(EndCode(lens, l), LOOKAHEAD - l)
  }

  lemma {:induction false} MaxCodeGrows(lens: seq<Length>, l: nat, m: nat)
    requires l <= m <= LOOKAHEAD
    ensures MaxCode(lens, l) <= MaxCode(lens, m)
  {
    hide EndCode, Pow2;
    EndGrows(lens, l, m);
    ScaledGrows(EndCode(lens, l), EndCode(lens, m), m - l, LOOKAHEAD - m);
  }

  lemma ScaledGrows(a: nat, b: nat, k: nat, j: nat)
    requires a * Pow2(k) <= b
    ensures a * Pow2(k + j) <= b * Pow2(j)
  {
    hide *;
    Pow2Add(k, j);
    MulThree(a, Pow2(k), Pow2(j));
    MulMonotone(a * Pow2(k), b, Pow2(j));
  }

  lemma {:induction false} MaxCodeBefore(lens: seq<Length>, l: nat)
    requires 0 < l <= LOOKAHEAD
    ensures MaxCode(lens, l - 1) == NextCode(lens, l) * Pow2(LOOKAHEAD - l)
  {
    hide BlCount;
    assert NextCode(lens, l) == 2 * EndCode(lens, l - 1);
    MulSwap(EndCode(lens, l - 1), Pow2(LOOKAHEAD - l));
  }

  /** A match of length s puts the aligned lookahead k into the range of that length. */
  lemma {:induction false} MatchInRange(lens: seq<Length>, v: nat, stream: nat)
    requires KraftHolds(lens) && Matches(lens, v, stream)
    ensures var k := Reverse(stream, LOOKAHEAD);
            MaxCode(lens, lens[v] - 1) <= k < MaxCode(lens, lens[v])
  {
    hide Code, Reverse, EndCode, NextCode;
    var s, k := lens[v], Reverse(stream, LOOKAHEAD);
    MatchesByReversal(lens, v, stream);
    ReverseTop(stream, s, LOOKAHEAD);
    CodeInRange(lens, v);
    MaxCodeBefore(lens, s);
    ShrBounds(k, LOOKAHEAD - s, NextCode(lens, s));
    ShrBounds(k, LOOKAHEAD - s, EndCode(lens, s));
  }

  /** Conversely, a lookahead in the range of length s is matched by a symbol of that length. */
  lemma {:induction false} RangeHasMatch(lens: seq<Length>, s: nat, stream: nat) returns (v: nat)
    requires KraftHolds(lens) && 0 < s <= MAX_BITS
    requires MaxCode(lens, s - 1) <= Reverse(stream, LOOKAHEAD) < MaxCode(lens, s)
    ensures Matches(lens, v, stream) && lens[v] == s
    ensures Shr(Reverse(stream, LOOKAHEAD), LOOKAHEAD - s) == NextCode(lens, s) + Rank(lens, v, s)
  {
    hide Reverse, Matches, EndCode, NextCode, Rank;
    var k := Reverse(stream, LOOKAHEAD);
    var c := Shr(k, LOOKAHEAD - s);
    MaxCodeBefore(lens, s);
    ShrBounds(k, LOOKAHEAD - s, NextCode(lens, s));
    ShrBounds(k, LOOKAHEAD - s, EndCode(lens, s));
    EndIs(lens, s);
    v := RankOnto(lens, |lens|, s, c - NextCode(lens, s));
    ReverseTop(stream, s, LOOKAHEAD);
    MatchesByReversal(lens, v, stream);
  }

  lemma EndIs(lens: seq<Length>, s: nat)
    ensures EndCode(lens, s) == NextCode(lens, s) + BlCount(lens, s)
    ensures s > 0 ==> BlCount(lens, s) == Rank(lens, |lens|, s)
  {
  }

  lemma NoCodesOfLengthZero(lens: seq<Length>)
    ensures MaxCode(lens, 0) == 0
  {
  }

  /** A lookahead below maxcode[l] is matched by some symbol of length up to l. */
  lemma {:induction false} BelowMaxHasMatch(lens: seq<Length>, l: nat, stream: nat) returns (v: nat)
    requires KraftHolds(lens) && l <= MAX_BITS
    requires Reverse(stream, LOOKAHEAD) < MaxCode(lens, l)
    ensures Matches(lens, v, stream) && lens[v] <= l
    decreases l
  {
    hide Reverse, Matches, Rank, NextCode;
    if l == 0 {
      NoCodesOfLengthZero(lens);
      assert false;
    } else if Reverse(stream, LOOKAHEAD) < MaxCode(lens, l - 1) {
      v := BelowMaxHasMatch(lens, l - 1, stream);
    } else {
      v := RangeHasMatch(lens, l, stream);
    }
  }
}
