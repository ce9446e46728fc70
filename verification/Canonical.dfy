/**
 Canonical Huffman codes as section 3.2.2 of RFC 1951 defines them: a code is given by the
 list of the code lengths of all symbols, where length 0 marks a symbol that is not used.
 */
module Canonical {
  import opened Words

  const MAX_BITS := 15

  type Length = s: nat | s <= MAX_BITS

  /** How many of the first n symbols have a code of length l. */
  function Rank(lens: seq<Length>, n: nat, l: nat): nat
    requires n <= |lens|
  {
    if n == 0 then 0 else Rank(lens, n - 1, l) + if lens[n - 1] == l then 1 else 0
  }

  /** bl_count of the RFC, where bl_count[0] is set to zero. */
  function BlCount(lens: seq<Length>, l: nat): nat {
    if l == 0 then 0 else Rank(lens, |lens|, l)
  }

  /** next_code of the RFC: the numerically smallest code of length l. */
  function NextCode(lens: seq<Length>, l: nat): nat {
    if l == 0 then 0 else 2 * (NextCode(lens, l - 1) + BlCount(lens, l - 1))
  }

  /** One more than the largest code of length l, if there is any. */
  function EndCode(lens: seq<Length>, l: nat): nat {
    NextCode(lens, l) + BlCount(lens, l)
  }

  /** The code of symbol v. */
  function Code(lens: seq<Length>, v: nat): nat
    requires v < |lens|
  {
    NextCode(lens, lens[v]) + Rank(lens, v, lens[v])
  }

  /** The s low bits of a code, most significant bit first, which is the order they are packed in. */
  function CodeBits(code: nat, s: nat): (bits: seq<bool>)
    ensures |bits| == s
  {
    if s == 0 then [] else CodeBits(code / 2, s - 1) + [code % 2 == 1]
  }

  predicate Used(lens: seq<Length>, v: nat) {
    v < |lens| && lens[v] > 0
  }

  /** Symbol v's code, as the bits it is packed into. */
  function SymbolBits(lens: seq<Length>, v: nat): seq<bool>
    requires v < |lens|
  {
    CodeBits(Code(lens, v), lens[v])
  }

  // ----- the Kraft sum

  /** The Kraft sum of the first n symbols, scaled by 2^15. */
  function Kraft(lens: seq<Length>, n: nat): nat
    requires n <= |lens|
  {
    if n == 0 then 0
    else Kraft(lens, n - 1) + if lens[n - 1] == 0 then 0 else Pow2(MAX_BITS - lens[n - 1])
  }

  /** EndCode counting only the first n symbols, as a sum over code lengths. */
  function PartialEnd(lens: seq<Length>, n: nat, l: nat): nat
    requires n <= |lens|
  {
    if l == 0 then 0 else 2 * PartialEnd(lens, n, l - 1) + Rank(lens, n, l)
  }

  lemma {:induction false} PartialEndIsEnd(lens: seq<Length>, l: nat)
    ensures PartialEnd(lens, |lens|, l) == EndCode(lens, l)
  {
    if l > 0 {
      PartialEndIsEnd(lens, l - 1);
    }
  }

  lemma {:induction false} PartialEndStep(lens: seq<Length>, n: nat, l: nat)
    requires n < |lens|
    ensures PartialEnd(lens, n + 1, l)
            == PartialEnd(lens, n, l) + if 0 < lens[n] <= l then Pow2(l - lens[n]) else 0
  {
    if l > 0 {
      PartialEndStep(lens, n, l - 1);
    }
  }

  lemma {:induction false} PartialEndNone(lens: seq<Length>, l: nat)
    ensures PartialEnd(lens, 0, l) == 0
  {
    if l > 0 {
      PartialEndNone(lens, l - 1);
    }
  }

  lemma {:induction false} KraftIsPartialEnd(lens: seq<Length>, n: nat)
    requires n <= |lens|
    ensures Kraft(lens, n) == PartialEnd(lens, n, MAX_BITS)
  {
    if n == 0 {
      PartialEndNone(lens, MAX_BITS);
    } else {
      KraftIsPartialEnd(lens, n - 1);
      PartialEndStep(lens, n - 1, MAX_BITS);
    }
  }

  /** The last end code is the Kraft sum, counted by length instead of by symbol. */
  lemma EndIsKraft(lens: seq<Length>)
    ensures EndCode(lens, MAX_BITS) == Kraft(lens, |lens|)
  {
    KraftIsPartialEnd(lens, |lens|);
    PartialEndIsEnd(lens, MAX_BITS);
  }

  /** The lengths of a code whose Kraft sum is at most one. */
  predicate KraftHolds(lens: seq<Length>) {
    Kraft(lens, |lens|) <= Pow2(MAX_BITS)
  }

  /** The two length checks of stbi__zbuild_huffman. */
  predicate PassesChecks(lens: seq<Length>) {
    forall l: nat :: 1 <= l <= MAX_BITS ==> PassesCheck(lens, l)
  }

  predicate PassesCheck(lens: seq<Length>, l: nat) {
    BlCount(lens, l) <= Pow2(l) && (BlCount(lens, l) > 0 ==> EndCode(lens, l) <= Pow2(l))
  }

  lemma {:induction false} EndGrows(lens: seq<Length>, l: nat, m: nat)
    requires l <= m
    ensures EndCode(lens, l) * Pow2(m - l) <= EndCode(lens, m)
    decreases m - l
  {
    if l < m {
      EndGrows(lens, l + 1, m);
      assert EndCode(lens, l + 1) >= 2 * EndCode(lens, l);
      MulMonotone(2 * EndCode(lens, l), EndCode(lens, l + 1), Pow2(m - l - 1));
      assert Pow2(m - l) == 2 * Pow2(m - l - 1);
      MulSwap(EndCode(lens, l), Pow2(m - l - 1));
    } else {
      assert Pow2(0) == 1;
    }
  }

  /** A product bounded by a product with the same factor. */
  lemma MulCancels(a: nat, b: nat, c: nat)
    requires c > 0 && a * c <= b * c
    ensures a <= b
  {
    if a > b {
      MulMonotone(b + 1, a, c);
    }
  }

  /** The codes of every length fit into that many bits. */
  lemma EndFits(lens: seq<Length>, l: nat)
    requires KraftHolds(lens) && l <= MAX_BITS
    ensures EndCode(lens, l) <= Pow2(l)
  {
    EndIsKraft(lens);
    EndGrows(lens, l, MAX_BITS);
    Pow2Add(l, MAX_BITS - l);
    MulCancels(EndCode(lens, l), Pow2(l), Pow2(MAX_BITS - l));
  }

  lemma {:induction false} ChecksBoundEnd(lens: seq<Length>, l: nat)
    requires PassesChecks(lens) && l <= MAX_BITS
    ensures EndCode(lens, l) <= Pow2(l)
  {
    if l > 0 {
      ChecksBoundEnd(lens, l - 1);
      assert PassesCheck(lens, l);
    }
  }

  /** The length checks accept a list exactly when its Kraft sum is at most one. */
  lemma ChecksAreKraft(lens: seq<Length>)
    ensures PassesChecks(lens) <==> KraftHolds(lens)
  {
    if PassesChecks(lens) {
      EndIsKraft(lens);
      ChecksBoundEnd(lens, MAX_BITS);
    }
    if KraftHolds(lens) {
      forall l: nat | 1 <= l <= MAX_BITS ensures PassesCheck(lens, l) {
        EndFits(lens, l);
      }
    }
  }

  // ----- ranks

  lemma {:induction false} RankMonotone(lens: seq<Length>, n: nat, m: nat, l: nat)
    requires n <= m <= |lens|
    ensures Rank(lens, n, l) <= Rank(lens, m, l)
    decreases m
  {
    if n < m {
      RankMonotone(lens, n, m - 1, l);
    }
  }

  /** A symbol's rank is below the number of symbols of its length. */
  lemma RankBelow(lens: seq<Length>, v: nat)
    requires Used(lens, v)
    ensures Rank(lens, v, lens[v]) < BlCount(lens, lens[v])
  {
    RankMonotone(lens, v + 1, |lens|, lens[v]);
  }

  /** Two symbols of the same length have different ranks. */
  lemma {:induction false} RankInjective(lens: seq<Length>, v: nat, w: nat)
    requires v < w < |lens| && lens[v] == lens[w]
    ensures Rank(lens, v, lens[v]) < Rank(lens, w, lens[v])
  {
    var l := lens[v];
    assert Rank(lens, v + 1, l) == Rank(lens, v, l) + 1;
    RankMonotone(lens, v + 1, w, l);
  }

  /** Every rank below the number of symbols of a length is some symbol's. */
  lemma {:induction false} RankOnto(lens: seq<Length>, n: nat, l: nat, r: nat) returns (v: nat)
    requires n <= |lens| && r < Rank(lens, n, l)
    ensures v < n && lens[v] == l && Rank(lens, v, l) == r
    decreases n
  {
    if lens[n - 1] == l && r == Rank(lens, n - 1, l) {
      v := n - 1;
    } else {
      v := RankOnto(lens, n - 1, l, r);
    }
  }

  /** A symbol's code lies between the first code and the end code of its length. */
  lemma CodeInRange(lens: seq<Length>, v: nat)
    requires Used(lens, v)
    ensures NextCode(lens, lens[v]) <= Code(lens, v) < EndCode(lens, lens[v])
  {
    RankBelow(lens, v);
  }

  lemma CodeFits(lens: seq<Length>, v: nat)
    requires KraftHolds(lens) && Used(lens, v)
    ensures Code(lens, v) < Pow2(lens[v])
  {
    CodeInRange(lens, v);
    EndFits(lens, lens[v]);
  }

  // ----- prefix freedom

  lemma {:induction false} CodeBitsPrefix(code: nat, s: nat, t: nat)
    requires s <= t
    ensures CodeBits(code, t)[..s] == CodeBits(Shr(code, t - s), s)
    decreases t
  {
    if s < t {
      CodeBitsPrefix(code / 2, s, t - 1);
      assert CodeBits(code, t)[..s] == CodeBits(code / 2, t - 1)[..s];
    } else {
      assert Pow2(0) == 1;
    }
  }

  lemma {:induction false} CodeBitsInjective(a: nat, b: nat, s: nat)
    requires a < Pow2(s) && b < Pow2(s) && CodeBits(a, s) == CodeBits(b, s)
    ensures a == b
  {
    if s > 0 {
      var x, y := CodeBits(a, s), CodeBits(b, s);
      assert x[..s - 1] == CodeBits(a / 2, s - 1) && y[..s - 1] == CodeBits(b / 2, s - 1);
      assert x[s - 1] == (a % 2 == 1) && y[s - 1] == (b % 2 == 1);
      CodeBitsInjective(a / 2, b / 2, s - 1);
    }
  }

  /**
   The two rules of the RFC: codes of one length increase with the symbols they represent, and
   shorter codes lexicographically precede longer codes.
   */
  lemma {:induction false} CodesAreOrdered(lens: seq<Length>, v: nat, w: nat)
    requires Used(lens, v) && Used(lens, w)
    ensures lens[v] == lens[w] && v < w ==> Code(lens, v) < Code(lens, w)
    ensures lens[v] < lens[w] ==> Code(lens, v) < Shr(Code(lens, w), lens[w] - lens[v])
  {
    var s, t := lens[v], lens[w];
    if s == t && v < w {
      RankInjective(lens, v, w);
    } else if s < t {
      hide Code, Rank, BlCount;
      CodeInRange(lens, v);
      CodeInRange(lens, w);
      EndBelowNext(lens, s, t);
      ShrBounds(Code(lens, w), t - s, EndCode(lens, s));
    }
  }

  lemma {:induction false} EndBelowNext(lens: seq<Length>, s: nat, t: nat)
    requires s < t
    ensures EndCode(lens, s) * Pow2(t - s) <= NextCode(lens, t)
  {
    hide BlCount;
    EndGrows(lens, s, t - 1);
    MulSwap(EndCode(lens, s), Pow2(t - 1 - s));
  }

  /** Dropping bits from a longer code never gives a shorter code, numerically. */
  lemma TruncatedCodeDiffers(lens: seq<Length>, v: nat, w: nat)
    requires Used(lens, v) && Used(lens, w) && v != w && lens[v] <= lens[w]
    ensures Shr(Code(lens, w), lens[w] - lens[v]) != Code(lens, v)
  {
    hide Code;
    assert Pow2(0) == 1;
    CodesAreOrdered(lens, v, w);
    CodesAreOrdered(lens, w, v);
  }

  /** No code is a prefix of another. */
  lemma CodesArePrefixFree(lens: seq<Length>, v: nat, w: nat)
    requires KraftHolds(lens) && Used(lens, v) && Used(lens, w) && v != w
    ensures !(SymbolBits(lens, v) <= SymbolBits(lens, w))
  {
    hide Code, CodeBits, Pow2;
    var s, t := lens[v], lens[w];
    if SymbolBits(lens, v) <= SymbolBits(lens, w) {
      CodeFits(lens, v);
      CodeFits(lens, w);
      CodeBitsPrefix(Code(lens, w), s, t);
      assert SymbolBits(lens, w)[..s] == SymbolBits(lens, v);
      ShrBelow(Code(lens, w), t - s, s);
      CodeBitsInjective(Code(lens, v), Shr(Code(lens, w), t - s), s);
      TruncatedCodeDiffers(lens, v, w);
    }
  }
}
