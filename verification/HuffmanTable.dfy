/** stbi__zhuffman: the decoding tables of one canonical code, and how they are filled. */
module HuffmanTable {
  import opened Words
  import opened Canonical
  import opened Lookup
  import opened BitReversal

  type uint8 = x: int | 0 <= x < 0x100
  type uint16 = x: int | 0 <= x < 0x1_0000

  const MAX_SYMBOLS := 288
  const FAST_SIZE := 512

  // ----- symbols sorted by code

  /** How many of the first n symbols are used and have a code shorter than l. */
  function CountShorter(lens: seq<Length>, n: nat, l: nat): (c: nat)
    requires n <= |lens|
    ensures c <= n
  {
    if n == 0 then 0 else CountShorter(lens, n - 1, l) + if 0 < lens[n - 1] < l then 1 else 0
  }

  /** Where symbol v is stored when the symbols are sorted by code. */
  function Slot(lens: seq<Length>, v: nat): nat
    requires v < |lens|
  {
    CountShorter(lens, |lens|, lens[v]) + Rank(lens, v, lens[v])
  }

  lemma {:induction false} CountShorterStep(lens: seq<Length>, n: nat, l: nat)
    requires n <= |lens| && l > 0
    ensures CountShorter(lens, n, l + 1) == CountShorter(lens, n, l) + Rank(lens, n, l)
  {
    if n > 0 {
      CountShorterStep(lens, n - 1, l);
    }
  }

  lemma {:induction false} CountShorterThanOne(lens: seq<Length>, n: nat)
    requires n <= |lens|
    ensures CountShorter(lens, n, 1) == 0
  {
    if n > 0 {
      CountShorterThanOne(lens, n - 1);
    }
  }

  lemma {:induction false} CountShorterGrows(lens: seq<Length>, l: nat, m: nat)
    requires 0 < l <= m
    ensures CountShorter(lens, |lens|, l) <= CountShorter(lens, |lens|, m)
    decreases m
  {
    if l < m {
      CountShorterGrows(lens, l, m - 1);
      CountShorterStep(lens, |lens|, m - 1);
    }
  }

  lemma {:induction false} SlotBounds(lens: seq<Length>, v: nat)
    requires Used(lens, v)
    ensures CountShorter(lens, |lens|, lens[v]) <= Slot(lens, v) < CountShorter(lens, |lens|, lens[v] as int + 1)
    ensures Slot(lens, v) < |lens|
  {
    RankBelow(lens, v);
    CountShorterStep(lens, |lens|, lens[v]);
  }

  /** Different symbols have different slots. */
  lemma {:induction false} SlotsDiffer(lens: seq<Length>, v: nat, w: nat)
    requires Used(lens, v) && Used(lens, w) && v != w
    ensures Slot(lens, v) != Slot(lens, w)
  {
    if lens[v] > lens[w] {
      SlotsDifferByLength(lens, w, v);
    } else {
      SlotsDifferByLength(lens, v, w);
    }
  }

  lemma {:induction false} SlotsDifferByLength(lens: seq<Length>, v: nat, w: nat)
    requires Used(lens, v) && Used(lens, w) && v != w && lens[v] <= lens[w]
    ensures Slot(lens, v) != Slot(lens, w)
  {
    if lens[v] == lens[w] {
      if v < w {
        RankInjective(lens, v, w);
      } else {
        RankInjective(lens, w, v);
      }
    } else {
      SlotBounds(lens, v);
      SlotBounds(lens, w);
      CountShorterGrows(lens, lens[v] as int + 1, lens[w]);
    }
  }

  // ----- the fast table

  predicate FastMatches(lens: seq<Length>, v: nat, j: nat) {
    Matches(lens, v, j) && lens[v] <= FAST_BITS
  }

  /** Entry e at index j of the fast table, when the first n symbols have been entered. */
  ghost predicate FastEntry(lens: seq<Length>, n: nat, j: nat, e: nat) {
    if e == 0 then forall v | 0 <= v < n :: !FastMatches(lens, v, j)
    else e % FAST_SIZE < n && FastMatches(lens, e % FAST_SIZE, j) && e / FAST_SIZE == lens[e % FAST_SIZE]
  }

  /** A short code matches index j exactly when j ends in the reversed code. */
  lemma {:induction false} FastMatchesByLow(lens: seq<Length>, v: nat, j: nat)
    requires KraftHolds(lens) && Used(lens, v) && lens[v] <= FAST_BITS
    ensures FastMatches(lens, v, j) <==> Low(j, lens[v]) == Reverse(Code(lens, v), lens[v])
  {
    hide Code, Reverse, Low;
    var s, c := lens[v], Code(lens, v);
    MatchesByReversal(lens, v, j);
    ReverseTwice(j, s);
    ReverseTwice(c, s);
    ReverseLow(j, s, s);
    CodeFits(lens, v);
    LowSmall(c, s);
  }

  lemma {:induction false} LowSmall(a: nat, n: nat)
    requires a < Pow2(n)
    ensures Low(a, n) == a
  {
    ShrIs(a, n, 0, a);
  }

  /** One symbol more: the entries that end in its reversed code are taken, all others stay. */
  lemma {:induction false} EntryFilled(lens: seq<Length>, i: nat, j: nat, before: nat, after: nat)
    requires KraftHolds(lens) && Used(lens, i) && lens[i] <= FAST_BITS && i < MAX_SYMBOLS
    requires FastEntry(lens, i, j, before)
    requires after == if Low(j, lens[i]) == Reverse(Code(lens, i), lens[i]) then lens[i] * FAST_SIZE + i else before
    ensures FastEntry(lens, i + 1, j, after)
  {
    hide Low, Reverse, Code, Matches;
    FastMatchesByLow(lens, i, j);
    if FastMatches(lens, i, j) {
      EntryDecodes(lens[i], i);
    }
  }

  lemma EntryDecodes(s: nat, i: nat)
    requires i < FAST_SIZE
    ensures (s * FAST_SIZE + i) % FAST_SIZE == i && (s * FAST_SIZE + i) / FAST_SIZE == s
  {
  }

  /** The lookahead's nine low bits decide which short code matches. */
  lemma {:induction false} FastMatchesLow(lens: seq<Length>, v: nat, stream: nat)
    requires KraftHolds(lens) && Used(lens, v) && lens[v] <= FAST_BITS
    ensures FastMatches(lens, v, Low(stream, FAST_BITS)) <==> Matches(lens, v, stream)
  {
    hide Code, Reverse, Low;
    MatchesByReversal(lens, v, stream);
    MatchesByReversal(lens, v, Low(stream, FAST_BITS));
    ReverseLow(stream, lens[v], FAST_BITS);
  }

  lemma {:induction false} LowStep(j: nat, s: nat)
    ensures Low(j + Pow2(s), s) == Low(j, s)
  {
    ShrSplit(j, s);
    MulPlusOne(Shr(j, s), Pow2(s));
    ShrIs(j + Pow2(s), s, Shr(j, s) + 1, Low(j, s));
  }

  lemma MulPlusOne(a: nat, p: nat)
    ensures (a + 1) * p == a * p + p
  {
  }

  /** Equal low bits are at least 2^s apart. */
  lemma {:induction false} LowGap(j: nat, k: nat, s: nat)
    requires j < k && Low(j, s) == Low(k, s)
    ensures j + Pow2(s) <= k
  {
    ShrSplit(j, s);
    ShrSplit(k, s);
    if Shr(k, s) <= Shr(j, s) {
      MulMonotone(Shr(k, s), Shr(j, s), Pow2(s));
    } else {
      MulMonotone(Shr(j, s) + 1, Shr(k, s), Pow2(s));
      MulPlusOne(Shr(j, s), Pow2(s));
    }
  }

  lemma {:induction false} NoneBelow(start: nat, s: nat)
    requires start < Pow2(s)
    ensures Low(start, s) == start
    ensures forall m :: 0 <= m < start ==> Low(m, s) != start
  {
    LowSmall(start, s);
    forall m | 0 <= m < start ensures Low(m, s) != start {
      LowSmall(m, s);
    }
  }

  /** The next index with the same low bits is 2^s further on. */
  lemma {:induction false} NextIndex(j: nat, s: nat)
    ensures Low(j + Pow2(s), s) == Low(j, s)
    ensures forall m :: j < m < j + Pow2(s) ==> Low(m, s) != Low(j, s)
  {
    LowStep(j, s);
    forall m | j < m < j + Pow2(s) ensures Low(m, s) != Low(j, s) {
      if Low(m, s) == Low(j, s) {
        LowGap(j, m, s);
      }
    }
  }

  // ----- the tables

  class ZHuffman {
    const fast: array<uint16>
    const firstcode: array<uint16>
    const maxcode: array<int>
    const firstsymbol: array<uint16>
    const size: array<uint8>
    const value: array<uint16>

    constructor ()
      ensures Shape() && fresh(fast) && fresh(firstcode) && fresh(maxcode)
      ensures fresh(firstsymbol) && fresh(size) && fresh(value)
    {
      fast := new uint16[FAST_SIZE](_ => 0);
      firstcode := new uint16[16](_ => 0);
      maxcode := new int[17](_ => 0);
      firstsymbol := new uint16[16](_ => 0);
      size := new uint8[MAX_SYMBOLS](_ => 0);
      value := new uint16[MAX_SYMBOLS](_ => 0);
    }

    ghost predicate Shape() {
      && fast.Length == FAST_SIZE && firstcode.Length == 16 && maxcode.Length == 17
      && firstsymbol.Length == 16 && size.Length == MAX_SYMBOLS && value.Length == MAX_SYMBOLS
      && fast as object != firstcode && fast as object != maxcode && fast as object != firstsymbol
      && fast as object != size && fast as object != value
      && firstcode as object != maxcode && firstcode as object != firstsymbol
      && firstcode as object != size && firstcode as object != value
      && maxcode as object != firstsymbol && maxcode as object != size && maxcode as object != value
      && firstsymbol as object != size && firstsymbol as object != value
      && size as object != value
    }

    ghost function Arrays(): set<object> {
      {fast as object, firstcode as object, maxcode as object, firstsymbol as object, size as object, value as object}
    }

    /** The first n symbols are in the fast table and in the sorted lists. */
    ghost predicate Entered(lens: seq<Length>, n: nat)
      requires Shape() && n <= |lens| <= MAX_SYMBOLS
      reads fast, size, value
    {
      && (forall j :: 0 <= j < FAST_SIZE ==> FastEntry(lens, n, j, fast[j]))
      && (forall v :: 0 <= v < n && Used(lens, v) ==> Stored(lens, v))
    }

    ghost predicate Stored(lens: seq<Length>, v: nat)
      requires Shape() && Used(lens, v) && |lens| <= MAX_SYMBOLS
      reads size, value
    {
      SlotBounds(lens, v);
      size[Slot(lens, v)] == lens[v] && value[Slot(lens, v)] == v
    }

    /** The ranges of codes of length l. */
    ghost predicate RangeOf(lens: seq<Length>, l: nat)
      requires Shape() && 0 < l <= MAX_BITS
      reads firstcode, maxcode, firstsymbol
    {
      && firstcode[l] == NextCode(lens, l)
      && maxcode[l] == MaxCode(lens, l)
      && firstsymbol[l] == CountShorter(lens, |lens|, l)
    }

    /** The tables decode the canonical code with these lengths. */
    ghost predicate Represents(lens: seq<Length>)
      reads Arrays()
    {
      && Shape() && |lens| <= MAX_SYMBOLS && KraftHolds(lens)
      && Entered(lens, |lens|)
      && (forall l :: 0 < l <= MAX_BITS ==> RangeOf(lens, l))
      && maxcode[16] == 0x1_0000
    }

    /** stbi__zbuild_huffman. */
    method Build(sizelist: seq<Length>) returns (ok: bool)
      requires Shape() && |sizelist| <= MAX_SYMBOLS
      modifies Arrays()
      ensures ok <==> KraftHolds(sizelist)
      ensures ok ==> Represents(sizelist)
    {
      hide Rank, NextCode, EndCode, MaxCode, Kraft, Pow2, FastEntry, CountShorter, Slot, Code, Matches;
      var sizes := CountSizes(sizelist);
      forall j | 0 <= j < FAST_SIZE {
        fast[j] := 0;
      }
      ChecksAreKraft(sizelist);
      for i := 1 to 16
        invariant forall l :: 1 <= l < i ==> BlCount(sizelist, l) <= Pow2(l)
      {
        if sizes[i] > Pow2(i) {
          assert !PassesCheck(sizelist, i);
          return false;
        }
      }
      var nextCode := new nat[16](_ => 0);
      ok := AssignRanges(sizelist, sizes, nextCode);
      if ok {
        EnterSymbols(sizelist, nextCode);
      }
    }

    static method CountSizes(sizelist: seq<Length>) returns (sizes: array<nat>)
      ensures fresh(sizes) && sizes.Length == 17
      ensures forall l :: 0 <= l < 16 ==> sizes[l] == BlCount(sizelist, l)
    {
      sizes := new nat[17](_ => 0);
      for i := 0 to |sizelist|
        invariant forall l :: 0 <= l < 17 ==> sizes[l] == Rank(sizelist, i, l)
      {
        sizes[sizelist[i]] := sizes[sizelist[i]] + 1;
      }
      sizes[0] := 0;
    }

    /** The second loop: first codes, first symbols and preshifted end codes of every length. */
    method AssignRanges(sizelist: seq<Length>, sizes: array<nat>, nextCode: array<nat>) returns (ok: bool)
      requires Shape() && |sizelist| <= MAX_SYMBOLS
      requires sizes.Length == 17 && nextCode.Length == 16 && sizes != nextCode
      requires sizes as object !in Arrays() && nextCode as object !in Arrays()
      requires forall l :: 0 <= l < 16 ==> sizes[l] == BlCount(sizelist, l) <= Pow2(l)
      modifies firstcode, maxcode, firstsymbol, nextCode
      ensures ok <==> PassesChecks(sizelist)
      ensures ok ==> forall l :: 0 < l <= MAX_BITS ==> RangeOf(sizelist, l) && nextCode[l] == NextCode(sizelist, l)
      ensures ok ==> maxcode[16] == 0x1_0000
    {
      hide Rank, BlCount, NextCode, EndCode, CountShorter, Pow2, Shl, MaxCode, PassesCheck, PassesChecks, RangesBelow;
      var k, code := 0, 0;
      StartRanges(sizelist, firstcode[..], firstsymbol[..], maxcode[..], nextCode[..]);
      for i := 1 to 16
        invariant code == NextCode(sizelist, i) <= Pow2(i)
        invariant k == CountShorter(sizelist, |sizelist|, i)
        invariant forall l :: 0 < l < i ==> PassesCheck(sizelist, l)
        invariant RangesBelow(sizelist, i, firstcode[..], firstsymbol[..], maxcode[..], nextCode[..])
      {
        ExtendRanges(sizelist, i, firstcode[..], firstsymbol[..], maxcode[..], nextCode[..]);
        CountShorterStep(sizelist, |sizelist|, i);
        CodeRecurrence(sizelist, i);
        ok, code := AssignRange(sizelist, i, sizes[i], code, k, nextCode);
        if !ok {
          NotAllPass(sizelist, i);
          return false;
        }
        k := k + sizes[i];
      }
      ghost var ranges := maxcode[..];
      maxcode[16] := 0x1_0000;
      RangesAre(sizelist, ranges, nextCode);
      AllPass(sizelist);
      ok := true;
    }

    /** One iteration of it. */
    method AssignRange(lens: seq<Length>, i: nat, count: nat, code: nat, k: nat, nextCode: array<nat>)
      returns (ok: bool, newCode: nat)
      requires Shape() && 0 < i < 16 && nextCode.Length == 16 && nextCode as object !in Arrays()
      requires count == BlCount(lens, i) <= Pow2(i) && code == NextCode(lens, i) <= Pow2(i)
      requires k <= |lens| <= MAX_SYMBOLS
      modifies firstcode, firstsymbol, maxcode, nextCode
      ensures ok <==> PassesCheck(lens, i)
      ensures ok ==> newCode == NextCode(lens, i + 1) <= Pow2(i + 1)
      ensures firstcode[..] == old(firstcode[..])[i := code]
      ensures firstsymbol[..] == old(firstsymbol[..])[i := k]
      ensures nextCode[..] == old(nextCode[..])[i := code]
      ensures ok ==> maxcode[..] == old(maxcode[..])[i := MaxCode(lens, i)]
    {
      CodeRecurrence(lens, i);
      Pow2Grows(i, 15);
      Pow2Small();
      CheckIs(lens, i);
      hide Rank, BlCount, NextCode, EndCode, Pow2, Shl, MaxCode, PassesCheck;
      nextCode[i] := code;
      firstcode[i] := code;
      firstsymbol[i] := k;
      newCode := code + count;
      if count > 0 {
        if newCode - 1 >= Pow2(i) {
          return false, newCode;
        }
      }
      maxcode[i] := Shl(newCode, 16 - i);
      newCode := newCode * 2;
      return true, newCode;
    }

    lemma RangesAre(lens: seq<Length>, ranges: seq<int>, nextCode: array<nat>)
      requires Shape() && nextCode.Length == 16
      requires RangesBelow(lens, 16, firstcode[..], firstsymbol[..], ranges, nextCode[..])
      requires maxcode[..] == ranges[16 := 0x1_0000]
      ensures forall l :: 0 < l <= MAX_BITS ==> RangeOf(lens, l) && nextCode[l] == NextCode(lens, l)
    {
    }

    /** The last loop: every used symbol is stored in its slot and, if its code is short, in the fast table. */
    method EnterSymbols(sizelist: seq<Length>, nextCode: array<nat>)
      requires Shape() && |sizelist| <= MAX_SYMBOLS && KraftHolds(sizelist)
      requires nextCode.Length == 16 && nextCode as object !in Arrays()
      requires forall l :: 0 < l <= MAX_BITS ==> RangeOf(sizelist, l) && nextCode[l] == NextCode(sizelist, l)
      requires forall j :: 0 <= j < FAST_SIZE ==> fast[j] == 0
      modifies fast, size, value, nextCode
      ensures Entered(sizelist, |sizelist|)
    {
      assert Entered(sizelist, 0) by {
        forall j | 0 <= j < FAST_SIZE ensures FastEntry(sizelist, 0, j, 0) {
        }
      }
      assert CodesFrom(sizelist, 0, nextCode[..]);
      hide *;
      for i := 0 to |sizelist|
        invariant Entered(sizelist, i)
        invariant nextCode.Length == 16 && CodesFrom(sizelist, i, nextCode[..])
      {
        AdvanceCode(sizelist, i, nextCode[..]);
        var s := sizelist[i];
        if s != 0 {
          EnterSymbol(sizelist, i, nextCode[s]);
          nextCode[s] := nextCode[s] + 1;
        } else {
          SkipSymbol(sizelist, i);
        }
      }
    }

    ghost method SkipSymbol(sizelist: seq<Length>, i: nat)
      requires Shape() && i < |sizelist| <= MAX_SYMBOLS && sizelist[i] == 0
      requires Entered(sizelist, i)
      ensures Entered(sizelist, i + 1)
    {
      forall j | 0 <= j < FAST_SIZE ensures FastEntry(sizelist, i + 1, j, fast[j]) {
        assert FastEntry(sizelist, i, j, fast[j]);
      }
    }

    method EnterSymbol(sizelist: seq<Length>, i: nat, code: nat)
      requires Shape() && |sizelist| <= MAX_SYMBOLS && KraftHolds(sizelist)
      requires Used(sizelist, i) && code == Code(sizelist, i)
      requires RangeOf(sizelist, sizelist[i])
      requires Entered(sizelist, i)
      modifies fast, size, value
      ensures Entered(sizelist, i + 1)
    {
      var s := sizelist[i];
      var c := code - firstcode[s] + firstsymbol[s];
      SlotBounds(sizelist, i);
      assert c == Slot(sizelist, i);
      forall v | 0 <= v < i && Used(sizelist, v) ensures Slot(sizelist, v) != c {
        SlotsDiffer(sizelist, v, i);
      }
      size[c] := s;
      value[c] := i;
      assert forall v :: 0 <= v < i && Used(sizelist, v) ==> old(Stored(sizelist, v));
      assert forall v :: 0 <= v < i && Used(sizelist, v) ==> Stored(sizelist, v);
      if s <= FAST_BITS {
        FillFast(sizelist, i);
      } else {
        forall j | 0 <= j < FAST_SIZE ensures FastEntry(sizelist, i + 1, j, fast[j]) {
          assert FastEntry(sizelist, i, j, fast[j]);
        }
      }
    }

    /** Enters a short code at every index that ends in its reversal. */
    method FillFast(sizelist: seq<Length>, i: nat)
      requires Shape() && |sizelist| <= MAX_SYMBOLS && KraftHolds(sizelist)
      requires Used(sizelist, i) && sizelist[i] <= FAST_BITS
      requires forall j :: 0 <= j < FAST_SIZE ==> FastEntry(sizelist, i, j, fast[j])
      modifies fast
      ensures forall j :: 0 <= j < FAST_SIZE ==> FastEntry(sizelist, i + 1, j, fast[j])
    {
      hide Low, Matches, Reverse, BitReverse, Code, FastEntry, Pow2;
      var s, code := sizelist[i], Code(sizelist, i);
      var j := BitReverse(code, s);
      BitReverseReverses(code, s);
      ReverseBelow(code, s);
      ghost var before := fast[..];
      Stamp(j, s, s * FAST_SIZE + i);
      forall m | 0 <= m < FAST_SIZE ensures FastEntry(sizelist, i + 1, m, fast[m]) {
        EntryFilled(sizelist, i, m, before[m], fast[m]);
      }
    }

    /** Writes an entry at start and at every 2^s-th index after it. */
    method Stamp(start: nat, s: nat, fastv: uint16)
      requires fast.Length == FAST_SIZE && start < Pow2(s)
      modifies fast
      ensures forall m :: 0 <= m < FAST_SIZE ==> fast[m] == if Low(m, s) == start then fastv else old(fast[m])
    {
      NoneBelow(start, s);
      hide Low, Pow2;
      var j := start;
      while j < FAST_SIZE
        invariant Low(j, s) == start
        invariant forall m :: 0 <= m < j && m < FAST_SIZE ==>
                    fast[m] == if Low(m, s) == start then fastv else old(fast[m])
        invariant forall m :: j <= m < FAST_SIZE ==> fast[m] == old(fast[m])
        decreases FAST_SIZE - j
      {
        fast[j] := fastv;
        NextIndex(j, s);
        j := j + Pow2(s);
      }
    }
  }

  /** The ranges of all lengths below i are in place. */
  ghost predicate RangesBelow(lens: seq<Length>, i: nat, firstcode: seq<nat>, firstsymbol: seq<nat>, maxcode: seq<int>,
                              nextCode: seq<nat>)
  {
    && i <= 16 == |firstcode| == |firstsymbol| == |nextCode| && |maxcode| == 17
    && forall l :: 0 < l < i ==>
         && nextCode[l] == firstcode[l] == NextCode(lens, l)
         && firstsymbol[l] == CountShorter(lens, |lens|, l)
         && maxcode[l] == MaxCode(lens, l)
  }

  lemma StartRanges(lens: seq<Length>, firstcode: seq<nat>, firstsymbol: seq<nat>, maxcode: seq<int>,
                    nextCode: seq<nat>)
    requires |firstcode| == |firstsymbol| == |nextCode| == 16 && |maxcode| == 17
    ensures RangesBelow(lens, 1, firstcode, firstsymbol, maxcode, nextCode)
    ensures CountShorter(lens, |lens|, 1) == 0 == NextCode(lens, 1)
  {
    CountShorterThanOne(lens, |lens|);
    CodeRecurrence(lens, 0);
  }

  lemma ExtendRanges(lens: seq<Length>, i: nat, firstcode: seq<nat>, firstsymbol: seq<nat>, maxcode: seq<int>,
                     nextCode: seq<nat>)
    requires 0 < i < 16 && RangesBelow(lens, i, firstcode, firstsymbol, maxcode, nextCode)
    ensures RangesBelow(lens, i + 1, firstcode[i := NextCode(lens, i)], firstsymbol[i := CountShorter(lens, |lens|, i)],
                        maxcode[i := MaxCode(lens, i)], nextCode[i := NextCode(lens, i)])
  {
    hide NextCode, CountShorter, MaxCode;
  }

  /** The code the next symbol of each length gets, when the first i symbols have theirs. */
  ghost predicate CodesFrom(lens: seq<Length>, i: nat, nextCode: seq<nat>) {
    && i <= |lens| && |nextCode| == 16
    && forall l :: 0 < l <= MAX_BITS ==> nextCode[l] == NextCode(lens, l) + Rank(lens, i, l)
  }

  lemma {:induction false} AdvanceCode(lens: seq<Length>, i: nat, nextCode: seq<nat>)
    requires i < |lens| && CodesFrom(lens, i, nextCode)
    ensures var s := lens[i];
            if s == 0 then CodesFrom(lens, i + 1, nextCode)
            else Used(lens, i) && |nextCode| == 16 && nextCode[s] == Code(lens, i)
                 && CodesFrom(lens, i + 1, nextCode[s := nextCode[s] + 1])
  {
    hide NextCode;
  }

  lemma CheckIs(lens: seq<Length>, l: nat)
    requires l <= MAX_BITS
    ensures PassesCheck(lens, l)
            <==> BlCount(lens, l) <= Pow2(l) && (BlCount(lens, l) > 0 ==> EndCode(lens, l) <= Pow2(l))
    ensures MaxCode(lens, l) == Shl(EndCode(lens, l), 16 - l)
  {
  }

  lemma NotAllPass(lens: seq<Length>, l: nat)
    requires 1 <= l <= MAX_BITS && !PassesCheck(lens, l)
    ensures !PassesChecks(lens)
  {
  }

  lemma AllPass(lens: seq<Length>)
    requires forall l :: 0 < l < 16 ==> PassesCheck(lens, l)
    ensures PassesChecks(lens)
  {
  }

  lemma CodeRecurrence(lens: seq<Length>, l: nat)
    ensures EndCode(lens, l) == NextCode(lens, l) + BlCount(lens, l)
    ensures NextCode(lens, l + 1) == 2 * EndCode(lens, l)
    ensures BlCount(lens, l) == if l == 0 then 0 else Rank(lens, |lens|, l)
    ensures l == 0 ==> EndCode(lens, l) == 0
    ensures Pow2(l + 1) == 2 * Pow2(l)
  {
  }

  lemma Pow2Small()
    ensures Pow2(15) == 0x8000
  {
    assert Pow2(8) == 0x100;
  }

  lemma {:induction false} Pow2Grows(a: nat, b: nat)
    requires a <= b
    ensures Pow2(a) <= Pow2(b)
    decreases b
  {
    if a < b {
      Pow2Grows(a, b - 1);
    }
  }
}
