/**
 One mixing round on a store of words, the round that undoes it, and what seeding promises:
 for as many inputs as the store has words it is a bijection, and it is injective in every
 single input however many there are.
 */
module Rounds {
  import opened Words
  import opened Mixing

  type Store = seq<word>

  // ----- first loop: every slot takes the hash of its input, or of zero

  function InputAt(input: seq<word>, i: nat): word {
    if i < |input| then input[i] else 0
  }

  function Absorb(n: nat, input: seq<word>): (st: Store)
    ensures |st| == n
  {
    seq(n, i requires 0 <= i => Hash(InputAt(input, i), i))
  }

  function Unabsorb(st: Store): (input: seq<word>)
    ensures |input| == |st|
  {
    seq(|st|, i requires 0 <= i < |st| => Unhash(st[i], i))
  }

  // ----- second loop: every slot is mixed into every other slot

  function CrossStep(st: Store, src: nat, dest: nat, k: nat): (r: Store)
    requires src < |st| && dest < |st|
    ensures |r| == |st|
  {
    if src == dest then st else st[dest := Mix(st[dest], Hash(st[src], k))]
  }

  function UncrossStep(st: Store, src: nat, dest: nat, k: nat): (r: Store)
    requires src < |st| && dest < |st|
    ensures |r| == |st|
  {
    if src == dest then st else st[dest := Unmix(st[dest], Hash(st[src], k))]
  }

  /** How many of the slots below dest differ from src, each of which took one hash call. */
  function Skip(src: nat, dest: nat): nat {
    if src < dest then dest - 1 else dest
  }

  /** The number of hash calls before the row of src starts. */
  function RowBase(n: nat, src: nat): nat
    requires src <= n
  {
    if src == 0 then n else RowBase(n, src - 1) + (n - 1)
  }

  /** The number of hash calls before src is mixed into dest. */
  function RowCalls(n: nat, src: nat, dest: nat): nat
    requires src <= n
  {
    RowBase(n, src) + Skip(src, dest)
  }

  /** Slot src mixed into the slots below dest. */
  function Row(st: Store, src: nat, dest: nat): (r: Store)
    requires src < |st| && dest <= |st|
    ensures |r| == |st|
    decreases dest
  {
    if dest == 0 then st
    else CrossStep(Row(st, src, dest - 1), src, dest - 1, RowCalls(|st|, src, dest - 1))
  }

  function Unrow(st: Store, src: nat, dest: nat): (r: Store)
    requires src < |st| && dest <= |st|
    ensures |r| == |st|
    decreases dest
  {
    if dest == 0 then st
    else Unrow(UncrossStep(st, src, dest - 1, RowCalls(|st|, src, dest - 1)), src, dest - 1)
  }

  /** The slots below src mixed into all others, in that order. */
  function Cross(st: Store, src: nat): (r: Store)
    requires src <= |st|
    ensures |r| == |st|
    decreases src
  {
    if src == 0 then st else Row(Cross(st, src - 1), src - 1, |st|)
  }

  function Uncross(st: Store, src: nat): (r: Store)
    requires src <= |st|
    ensures |r| == |st|
    decreases src
  {
    if src == 0 then st else Uncross(Unrow(st, src - 1, |st|), src - 1)
  }

  // ----- third loop: inputs that found no slot of their own are mixed into all slots

  function PourStep(st: Store, w: word, dest: nat, k: nat): (r: Store)
    requires dest <= |st|
    ensures |r| == |st|
    decreases dest
  {
    if dest == 0 then st
    else
      var p := PourStep(st, w, dest - 1, k);
      p[dest - 1 := Mix(p[dest - 1], Hash(w, k + dest - 1))]
  }

  /** The words of extra mixed into the store, with hash calls numbered from k. */
  function Pour(st: Store, extra: seq<word>, k: nat): (r: Store)
    ensures |r| == |st|
    decreases |extra|
  {
    if extra == [] then st else Pour(PourStep(st, extra[0], |st|, k), extra[1..], k + |st|)
  }

  function UnpourStep(st: Store, w: word, dest: nat, k: nat): (r: Store)
    requires dest <= |st|
    ensures |r| == |st|
    decreases dest
  {
    if dest == 0 then st
    else UnpourStep(st[dest - 1 := Unmix(st[dest - 1], Hash(w, k + dest - 1))], w, dest - 1, k)
  }

  function Unpour(st: Store, extra: seq<word>, k: nat): (r: Store)
    ensures |r| == |st|
    decreases |extra|
  {
    if extra == [] then st
    else UnpourStep(Unpour(st, extra[1..], k + |st|), extra[0], |st|, k)
  }

  // ----- a whole round, and seeding

  function Round(n: nat, input: seq<word>): (st: Store)
    ensures |st| == n
  {
    var crossed := Cross(Absorb(n, input), n);
    if |input| <= n then crossed else Pour(crossed, input[n..], RowBase(n, n))
  }

  function Unround(st: Store): (input: seq<word>)
    ensures |input| == |st|
  {
    Unabsorb(Uncross(st, |st|))
  }

  /** Stores of up to two words are stirred once more. */
  function MixRounds(n: nat): nat {
    if n <= 2 then 2 else 1
  }

  function Stirred(st: Store, times: nat): (r: Store)
    ensures |r| == |st|
    decreases times
  {
    if times == 0 then st else Stirred(Round(|st|, st), times - 1)
  }

  function Seeded(n: nat, input: seq<word>): (st: Store)
    ensures |st| == n
  {
    Stirred(Round(n, input), MixRounds(n) - 1)
  }

  function Unstirred(st: Store, times: nat): (r: Store)
    ensures |r| == |st|
    decreases times
  {
    if times == 0 then st else Unstirred(Unround(st), times - 1)
  }

  /** What param computes from a store. */
  function Recovered(st: Store): (input: seq<word>)
    ensures |input| == |st|
  {
    Unstirred(st, MixRounds(|st|))
  }

  // ----- each step undone

  lemma RowBaseIsSquare(n: nat)
    ensures RowBase(n, n) == n * n
  {
    RowBaseIs(n, n);
  }

  lemma {:induction false} RowBaseIs(n: nat, src: nat)
    requires src <= n
    ensures RowBase(n, src) == n + src * (n - 1)
  {
    if src > 0 {
      RowBaseIs(n, src - 1);
      assert (src - 1) * (n - 1) == src * (n - 1) - (n - 1);
    }
  }

  lemma AbsorbInverse(n: nat, input: seq<word>)
    requires |input| == n
    ensures Unabsorb(Absorb(n, input)) == input
    ensures Absorb(n, Unabsorb(input)) == input
  {
    forall i: nat | i < n
      ensures Unabsorb(Absorb(n, input))[i] == input[i]
      ensures Absorb(n, Unabsorb(input))[i] == input[i]
    {
      HashInverse(input[i], i);
    }
  }

  lemma CrossStepInverse(st: Store, src: nat, dest: nat, k: nat)
    requires src < |st| && dest < |st|
    ensures UncrossStep(CrossStep(st, src, dest, k), src, dest, k) == st
    ensures CrossStep(UncrossStep(st, src, dest, k), src, dest, k) == st
  {
    MixInverse(st[dest], Hash(st[src], k));
  }

  lemma {:induction false} UnrowRow(st: Store, src: nat, dest: nat)
    requires src < |st| && dest <= |st|
    ensures Unrow(Row(st, src, dest), src, dest) == st
    decreases dest
  {
    hide Mix, Unmix, Hash;
    if dest > 0 {
      CrossStepInverse(Row(st, src, dest - 1), src, dest - 1, RowCalls(|st|, src, dest - 1));
      UnrowRow(st, src, dest - 1);
    }
  }

  lemma {:induction false} RowUnrow(st: Store, src: nat, dest: nat)
    requires src < |st| && dest <= |st|
    ensures Row(Unrow(st, src, dest), src, dest) == st
    decreases dest
  {
    hide Mix, Unmix, Hash;
    if dest > 0 {
      var k := RowCalls(|st|, src, dest - 1);
      var u := UncrossStep(st, src, dest - 1, k);
      var w := Unrow(u, src, dest - 1);
      RowUnrow(u, src, dest - 1);
      assert Row(w, src, dest) == CrossStep(u, src, dest - 1, k);
      CrossStepInverse(st, src, dest - 1, k);
    }
  }

  lemma {:induction false} UncrossCross(st: Store, src: nat)
    requires src <= |st|
    ensures Uncross(Cross(st, src), src) == st
    decreases src
  {
    hide Row, Unrow;
    if src > 0 {
      UnrowRow(Cross(st, src - 1), src - 1, |st|);
      UncrossCross(st, src - 1);
    }
  }

  lemma {:induction false} CrossUncross(st: Store, src: nat)
    requires src <= |st|
    ensures Cross(Uncross(st, src), src) == st
    decreases src
  {
    hide Row, Unrow;
    if src > 0 {
      RowUnrow(st, src - 1, |st|);
      CrossUncross(Unrow(st, src - 1, |st|), src - 1);
    }
  }

  lemma RoundInverse(st: Store)
    ensures Unround(Round(|st|, st)) == st
    ensures Round(|st|, Unround(st)) == st
  {
    UncrossCross(Absorb(|st|, st), |st|);
    AbsorbInverse(|st|, st);
    AbsorbInverse(|st|, Uncross(st, |st|));
    CrossUncross(st, |st|);
  }

  lemma {:induction false} StirredInverse(st: Store, times: nat)
    ensures Unstirred(Stirred(st, times), times) == st
    ensures Stirred(Unstirred(st, times), times) == st
    decreases times
  {
    if times > 0 {
      StirredLast(st, times);
      UnstirredLast(st, times);
      RoundInverse(Stirred(st, times - 1));
      StirredInverse(st, times - 1);
      RoundInverse(Unstirred(st, times - 1));
    }
  }

  lemma {:induction false} StirredLast(st: Store, times: nat)
    requires times > 0
    ensures Stirred(st, times) == Round(|st|, Stirred(st, times - 1))
    decreases times
  {
    if times > 1 {
      StirredLast(Round(|st|, st), times - 1);
    }
  }

  lemma {:induction false} UnstirredLast(st: Store, times: nat)
    requires times > 0
    ensures Unstirred(st, times) == Unround(Unstirred(st, times - 1))
    decreases times
  {
    if times > 1 {
      UnstirredLast(Unround(st), times - 1);
    }
  }

  lemma UnrowFirst(st: Store, src: nat, dest: nat, k: nat)
    requires src < |st| && dest < |st| && k == RowCalls(|st|, src, dest)
    ensures Unrow(st, src, dest + 1) == Unrow(UncrossStep(st, src, dest, k), src, dest)
  {
  }

  lemma UncrossFirst(st: Store, src: nat)
    requires src < |st|
    ensures Uncross(st, src + 1) == Uncross(Unrow(st, src, |st|), src)
  {
  }

  lemma PourFirst(st: Store, extra: seq<word>, k: nat)
    requires extra != []
    ensures Pour(st, extra, k) == Pour(PourStep(st, extra[0], |st|, k), extra[1..], k + |st|)
  {
  }

  lemma PourNothing(st: Store, extra: seq<word>, k: nat)
    requires extra == []
    ensures Pour(st, extra, k) == st
  {
  }

  // ----- the main results

  /** For n inputs and a store of n words, param returns what seed absorbed. */
  lemma ParamUndoesSeed(input: seq<word>)
    ensures Recovered(Seeded(|input|, input)) == input
  {
    StirredInverse(input, MixRounds(|input|));
  }

  /** Every store is reached from exactly the inputs param returns: no state is omitted. */
  lemma SeedReachesEveryStore(st: Store)
    ensures Seeded(|st|, Recovered(st)) == st
  {
    StirredInverse(st, MixRounds(|st|));
  }

  // ----- more inputs than slots, and fewer

  lemma {:induction false} PourStepInverse(st: Store, w: word, dest: nat, k: nat)
    requires dest <= |st|
    ensures UnpourStep(PourStep(st, w, dest, k), w, dest, k) == st
    decreases dest
  {
    hide Mix, Unmix, Hash;
    if dest > 0 {
      var p := PourStep(st, w, dest - 1, k);
      MixInverse(p[dest - 1], Hash(w, k + dest - 1));
      var q := p[dest - 1 := Mix(p[dest - 1], Hash(w, k + dest - 1))];
      assert q[dest - 1 := p[dest - 1]] == p;
      PourStepInverse(st, w, dest - 1, k);
    }
  }

  lemma {:induction false} UnpourStepInverse(st: Store, w: word, dest: nat, k: nat)
    requires dest <= |st|
    ensures PourStep(UnpourStep(st, w, dest, k), w, dest, k) == st
    decreases dest
  {
    hide Mix, Unmix, Hash;
    if dest > 0 {
      var h := Hash(w, k + dest - 1);
      var u := st[dest - 1 := Unmix(st[dest - 1], h)];
      UnpourStepInverse(u, w, dest - 1, k);
      MixInverse(st[dest - 1], h);
      assert u[dest - 1 := st[dest - 1]] == st;
    }
  }

  lemma {:induction false} UnpourPour(st: Store, extra: seq<word>, k: nat)
    ensures Unpour(Pour(st, extra, k), extra, k) == st
    decreases |extra|
  {
    if extra != [] {
      UnpourPour(PourStep(st, extra[0], |st|, k), extra[1..], k + |st|);
      PourStepInverse(st, extra[0], |st|, k);
    }
  }

  lemma {:induction false} PourUnpour(st: Store, extra: seq<word>, k: nat)
    ensures Pour(Unpour(st, extra, k), extra, k) == st
    decreases |extra|
  {
    if extra != [] {
      UnpourStepInverse(Unpour(st, extra[1..], k + |st|), extra[0], |st|, k);
      PourUnpour(st, extra[1..], k + |st|);
    }
  }

  /** The first inputs that lead to a store, given the inputs that follow them. */
  function FirstInputs(st: Store, extra: seq<word>): (input: seq<word>)
    ensures |input| == |st|
  {
    var n := |st|;
    Unround(Unpour(Unstirred(st, MixRounds(n) - 1), extra, RowBase(n, n)))
  }

  lemma RoundWithExtra(n: nat, first: seq<word>, extra: seq<word>)
    requires |first| == n
    ensures Round(n, first + extra) == Pour(Round(n, first), extra, RowBase(n, n))
  {
    var input := first + extra;
    assert Absorb(n, input) == Absorb(n, first) by {
      assert forall i: nat :: i < n ==> InputAt(input, i) == InputAt(first, i);
    }
    if extra != [] {
      assert input[n..] == extra;
    } else {
      assert input == first;
    }
  }

  /** With any further inputs fixed, seeding is a bijection between the first n inputs and the stores. */
  lemma SeedIsBijection(st: Store, first: seq<word>, extra: seq<word>)
    requires |first| == |st|
    ensures Seeded(|st|, first + extra) == st <==> first == FirstInputs(st, extra)
  {
    var n, t := |st|, MixRounds(|st|) - 1;
    RoundWithExtra(n, first, extra);
    if Seeded(n, first + extra) == st {
      StirredInverse(Round(n, first + extra), t);
      UnpourPour(Round(n, first), extra, RowBase(n, n));
      RoundInverse(first);
    }
    if first == FirstInputs(st, extra) {
      var u := Unstirred(st, t);
      RoundInverse(Unpour(u, extra, RowBase(n, n)));
      PourUnpour(u, extra, RowBase(n, n));
      StirredInverse(st, t);
    }
  }

  /** Too few inputs count as if they were padded with zeros, so no state occurs twice. */
  lemma SeedInjectiveWhenShort(n: nat, a: seq<word>, b: seq<word>)
    requires |a| == |b| <= n
    requires Seeded(n, a) == Seeded(n, b)
    ensures a == b
  {
    SeedPadded(n, a);
    SeedPadded(n, b);
    var zeros := seq(n - |a|, _ => 0);
    ParamUndoesSeed(a + zeros);
    ParamUndoesSeed(b + zeros);
    assert a == (a + zeros)[..|a|];
    assert b == (b + zeros)[..|b|];
  }

  lemma SeedPadded(n: nat, a: seq<word>)
    requires |a| <= n
    ensures Seeded(n, a) == Seeded(n, a + seq(n - |a|, _ => 0))
  {
    var padded := a + seq(n - |a|, _ => 0);
    assert forall i: nat :: i < n ==> InputAt(a, i) == InputAt(padded, i);
    assert Absorb(n, a) == Absorb(n, padded);
  }

  lemma {:induction false} PourStepAt(st: Store, w: word, dest: nat, k: nat)
    requires 0 < dest <= |st|
    ensures PourStep(st, w, dest, k)[0] == Mix(st[0], Hash(w, k))
    decreases dest
  {
    if dest > 1 {
      PourStepAt(st, w, dest - 1, k);
    }
  }

  lemma {:induction false} PourInjective(st: Store, a: seq<word>, b: seq<word>, j: nat, k: nat)
    requires st != [] && |a| == |b| && j < |a| && a[j := b[j]] == b
    requires Pour(st, a, k) == Pour(st, b, k)
    ensures a == b
    decreases j
  {
    hide Mix, Unmix, Hash;
    if j == 0 {
      assert a[1..] == b[1..];
      var p, q := PourStep(st, a[0], |st|, k), PourStep(st, b[0], |st|, k);
      UnpourPour(p, a[1..], k + |st|);
      UnpourPour(q, a[1..], k + |st|);
      PourStepAt(st, a[0], |st|, k);
      PourStepAt(st, b[0], |st|, k);
      MixInjectiveInSource(st[0], Hash(a[0], k), Hash(b[0], k));
      HashInverse(a[0], k);
      HashInverse(b[0], k);
    } else {
      assert a[1..][j - 1 := b[1..][j - 1]] == b[1..];
      PourInjective(PourStep(st, a[0], |st|, k), a[1..], b[1..], j - 1, k + |st|);
    }
  }

  /** Varying one single input, whichever, gives a different store for each of its values. */
  lemma SeedInjectiveInEachInput(n: nat, a: seq<word>, b: seq<word>, i: nat)
    requires n > 0 && |a| == |b| && i < |a| && a[i := b[i]] == b
    requires Seeded(n, a) == Seeded(n, b)
    ensures a == b
  {
    hide Seeded;
    if |a| <= n {
      SeedInjectiveWhenShort(n, a, b);
    } else if i < n {
      assert a[n..] == b[n..];
      assert a == a[..n] + a[n..] && b == b[..n] + a[n..];
      SeedIsBijection(Seeded(n, a), a[..n], a[n..]);
      SeedIsBijection(Seeded(n, a), b[..n], a[n..]);
    } else {
      assert a == a[..n] + a[n..] && b == a[..n] + b[n..];
      assert a[n..][i - n := b[n..][i - n]] == b[n..];
      FurtherInputMatters(n, a[..n], a[n..], b[n..], i - n);
    }
  }

  lemma FurtherInputMatters(n: nat, first: seq<word>, x: seq<word>, y: seq<word>, j: nat)
    requires 0 < n == |first| && |x| == |y| && j < |x| && x[j := y[j]] == y
    requires Seeded(n, first + x) == Seeded(n, first + y)
    ensures x == y
  {
    hide Round, Stirred, Unstirred, Pour;
    var t := MixRounds(n) - 1;
    StirredInverse(Round(n, first + x), t);
    StirredInverse(Round(n, first + y), t);
    RoundWithExtra(n, first, x);
    RoundWithExtra(n, first, y);
    PourInjective(Round(n, first), x, y, j, RowBase(n, n));
  }
}
