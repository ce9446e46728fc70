/** How far one input spreads in a mixing round, and how many rounds seeding takes. */
module Diffusion {
  import opened Words
  import opened Mixing
  import opened Rounds

  // ----- before and within the row of a slot

  /** Two stores that differ in one slot only. */
  ghost predicate DifferAt(s: Store, t: Store, i: nat) {
    i < |s| == |t| && forall j :: 0 <= j < |s| ==> (s[j] == t[j] <==> j != i)
  }

  /** Two stores that differ in slot i and in all below dest. */
  ghost predicate DifferBelow(s: Store, t: Store, i: nat, dest: nat) {
    i < |s| == |t| && dest <= |s| && forall j :: 0 <= j < |s| ==> (s[j] == t[j] <==> j != i && j >= dest)
  }

  ghost predicate DifferEverywhere(s: Store, t: Store) {
    |s| == |t| && forall j :: 0 <= j < |s| ==> s[j] != t[j]
  }

  lemma HashesDiffer(v: word, w: word, k: nat)
    requires v != w
    ensures Hash(v, k) != Hash(w, k)
  {
    hide Hash, Unhash;
    HashInverse(v, k);
    HashInverse(w, k);
  }

  lemma MixesDiffer(x: word, y: word, h: word)
    requires x != y
    ensures Mix(x, h) != Mix(y, h)
  {
    hide Mix, Unmix;
    MixInverse(x, h);
    MixInverse(y, h);
  }

  lemma AbsorbDiffers(n: nat, a: seq<word>, b: seq<word>, i: nat)
    requires i < n && |a| == |b| && i < |a| && a[i] != b[i] && a[i := b[i]] == b
    ensures DifferAt(Absorb(n, a), Absorb(n, b), i)
  {
    hide Hash;
    HashesDiffer(a[i], b[i], i);
    forall j: nat | j < n && j != i ensures InputAt(a, j) == InputAt(b, j) {
      assert j < |a| ==> b[j] == a[j];
    }
  }

  /** The row of another slot leaves the difference where it is. */
  lemma {:induction false} OtherRowKeeps(s: Store, t: Store, src: nat, dest: nat, i: nat)
    requires DifferAt(s, t, i) && src < |s| && dest <= |s| && src != i
    ensures DifferAt(Row(s, src, dest), Row(t, src, dest), i)
    decreases dest
  {
    hide Mix, Hash;
    if dest > 0 {
      var p, q, k := Row(s, src, dest - 1), Row(t, src, dest - 1), RowCalls(|s|, src, dest - 1);
      OtherRowKeeps(s, t, src, dest - 1, i);
      if dest - 1 == i {
        MixesDiffer(p[i], q[i], Hash(p[src], k));
      }
    }
  }

  /** The row of the slot itself spreads it to all others. */
  lemma {:induction false} OwnRowSpreads(s: Store, t: Store, dest: nat, i: nat)
    requires DifferAt(s, t, i) && dest <= |s|
    ensures DifferBelow(Row(s, i, dest), Row(t, i, dest), i, dest)
    decreases dest
  {
    hide Mix, Hash;
    if dest > 0 {
      var p, q, k := Row(s, i, dest - 1), Row(t, i, dest - 1), RowCalls(|s|, i, dest - 1);
      OwnRowSpreads(s, t, dest - 1, i);
      if dest - 1 != i {
        HashesDiffer(p[i], q[i], k);
        SourcesMix(p[dest - 1], Hash(p[i], k), Hash(q[i], k));
      }
    }
  }

  lemma SourcesMix(x: word, y: word, z: word)
    requires y != z
    ensures Mix(x, y) != Mix(x, z)
  {
    hide Mix;
    if Mix(x, y) == Mix(x, z) {
      MixInjectiveInSource(x, y, z);
    }
  }

  lemma {:induction false} EarlierRowsKeep(s: Store, t: Store, src: nat, i: nat)
    requires DifferAt(s, t, i) && src <= i
    ensures DifferAt(Cross(s, src), Cross(t, src), i)
    decreases src
  {
    hide Row, DifferAt;
    UseDifferAt(s, t, i);
    if src > 0 {
      EarlierRowsKeep(s, t, src - 1, i);
      OtherRowKeeps(Cross(s, src - 1), Cross(t, src - 1), src - 1, |s|, i);
    }
  }

  lemma UseDifferAt(s: Store, t: Store, i: nat)
    requires DifferAt(s, t, i)
    ensures i < |s| == |t|
  {
  }

  /** A changed input changes its own slot and no other, until that slot is mixed into the others. */
  lemma InputStaysUntilItsRow(n: nat, a: seq<word>, b: seq<word>, i: nat, src: nat)
    requires src <= i < n && |a| == |b| && i < |a| && a[i] != b[i] && a[i := b[i]] == b
    ensures DifferAt(Cross(Absorb(n, a), src), Cross(Absorb(n, b), src), i)
  {
    hide *;
    AbsorbDiffers(n, a, b, i);
    EarlierRowsKeep(Absorb(n, a), Absorb(n, b), src, i);
  }

  /** Whichever input changes, once its slot has been mixed into the others every word has changed. */
  lemma InputReachesEveryWord(n: nat, a: seq<word>, b: seq<word>, i: nat)
    requires i < n && |a| == |b| && i < |a| && a[i] != b[i] && a[i := b[i]] == b
    ensures DifferEverywhere(Cross(Absorb(n, a), i + 1), Cross(Absorb(n, b), i + 1))
  {
    hide Absorb, DifferAt, Row;
    var s, t := Absorb(n, a), Absorb(n, b);
    InputStaysUntilItsRow(n, a, b, i, i);
    OwnRowSpreads(Cross(s, i), Cross(t, i), n, i);
  }

  // ----- inputs without a slot of their own

  lemma {:induction false} PourStepKeeps(s: Store, t: Store, w: word, dest: nat, k: nat)
    requires DifferEverywhere(s, t) && dest <= |s|
    ensures DifferEverywhere(PourStep(s, w, dest, k), PourStep(t, w, dest, k))
    decreases dest
  {
    hide Mix, Hash;
    if dest > 0 {
      PourStepKeeps(s, t, w, dest - 1, k);
      var p, q := PourStep(s, w, dest - 1, k), PourStep(t, w, dest - 1, k);
      MixesDiffer(p[dest - 1], q[dest - 1], Hash(w, k + dest - 1));
    }
  }

  /** What has spread everywhere stays different when the same inputs are poured in. */
  lemma {:induction false} PourKeeps(s: Store, t: Store, extra: seq<word>, k: nat)
    requires DifferEverywhere(s, t)
    ensures DifferEverywhere(Pour(s, extra, k), Pour(t, extra, k))
    decreases |extra|
  {
    hide PourStep;
    if extra != [] {
      PourStepKeeps(s, t, extra[0], |s|, k);
      PourKeeps(PourStep(s, extra[0], |s|, k), PourStep(t, extra[0], |t|, k), extra[1..], k + |s|);
    }
  }

  /** Two stores that differ everywhere below dest, and are both s from there on. */
  ghost predicate DifferOnlyBelow(s: Store, p: Store, q: Store, dest: nat) {
    |p| == |q| == |s| && forall j :: 0 <= j < |s| ==> if j < dest then p[j] != q[j] else p[j] == q[j] == s[j]
  }

  lemma {:induction false} PourStepSpreads(s: Store, v: word, w: word, dest: nat, k: nat)
    requires v != w && dest <= |s|
    ensures DifferOnlyBelow(s, PourStep(s, v, dest, k), PourStep(s, w, dest, k), dest)
    decreases dest
  {
    hide Mix, Hash;
    if dest > 0 {
      PourStepSpreads(s, v, w, dest - 1, k);
      HashesDiffer(v, w, k + dest - 1);
      SourcesMix(s[dest - 1], Hash(v, k + dest - 1), Hash(w, k + dest - 1));
    }
  }

  lemma {:induction false} PourSpreads(s: Store, x: seq<word>, y: seq<word>, j: nat, k: nat)
    requires |x| == |y| && j < |x| && x[j] != y[j] && x[j := y[j]] == y
    ensures DifferEverywhere(Pour(s, x, k), Pour(s, y, k))
    decreases j
  {
    hide PourStep;
    assert x[0] == y[0] || j == 0;
    if j == 0 {
      assert x[1..] == y[1..];
      PourStepSpreads(s, x[0], y[0], |s|, k);
      PourKeeps(PourStep(s, x[0], |s|, k), PourStep(s, y[0], |s|, k), x[1..], k + |s|);
    } else {
      assert x[1..][j - 1 := y[1..][j - 1]] == y[1..];
      PourSpreads(PourStep(s, x[0], |s|, k), x[1..], y[1..], j - 1, k + |s|);
    }
  }

  /** A change of the last input that has a slot, or of one that has none, changes every word of the round. */
  lemma LateInputReachesEveryWord(n: nat, a: seq<word>, b: seq<word>, i: nat)
    requires n > 0 && |a| == |b| && n - 1 <= i < |a| && a[i] != b[i] && a[i := b[i]] == b
    ensures DifferEverywhere(Round(n, a), Round(n, b))
  {
    hide Pour, Cross, Absorb;
    if i < n {
      InputReachesEveryWord(n, a, b, i);
      if |a| > n {
        assert a[n..] == b[n..];
        PourKeeps(Cross(Absorb(n, a), n), Cross(Absorb(n, b), n), a[n..], RowBase(n, n));
      }
    } else {
      SameFirstInputs(n, a, b);
      assert a[n..][i - n := b[n..][i - n]] == b[n..];
      PourSpreads(Cross(Absorb(n, a), n), a[n..], b[n..], i - n, RowBase(n, n));
    }
  }

  lemma SameFirstInputs(n: nat, a: seq<word>, b: seq<word>)
    requires |a| == |b| >= n && a[..n] == b[..n]
    ensures Absorb(n, a) == Absorb(n, b)
  {
    hide Hash;
    forall i: nat | i < n ensures InputAt(a, i) == InputAt(b, i) {
      assert a[i] == a[..n][i] && b[i] == b[..n][i];
    }
  }

  /** Stores of one or two words go through a second round, larger ones do not. */
  lemma RoundsBySize(n: nat, input: seq<word>)
    ensures n <= 2 ==> Seeded(n, input) == Round(n, Round(n, input))
    ensures n > 2 ==> Seeded(n, input) == Round(n, input)
  {
    hide Round;
    assert Stirred(Round(n, input), 0) == Round(n, input);
    assert n <= 2 ==> Stirred(Round(n, input), 1) == Stirred(Round(n, Round(n, input)), 0);
  }

  // ----- values of the hash and mix functions

  lemma {:induction false} XorParts(a: nat, b: nat, c: nat, d: nat, n: nat)
    requires b < Pow2(n) && d < Pow2(n)
    ensures Xor(a * Pow2(n) + b, c * Pow2(n) + d) == Xor(a, c) * Pow2(n) + Xor(b, d)
    decreases n
  {
    hide *;
    PowStep(n);
    if n == 0 {
      XorZero(0);
    } else {
      var p := Pow2(n - 1);
      HalfOfParts(a, b, p);
      HalfOfParts(c, d, p);
      XorStep(a * Pow2(n) + b, c * Pow2(n) + d);
      XorStep(b, d);
      XorParts(a, b / 2, c, d / 2, n - 1);
      assert Xor(a, c) * (2 * p) == 2 * (Xor(a, c) * p);
    }
  }

  lemma PowStep(n: nat)
    ensures Pow2(n) == if n == 0 then 1 else 2 * Pow2(n - 1)
  {
  }

  lemma HalfOfParts(a: nat, b: nat, p: nat)
    ensures (a * (2 * p) + b) / 2 == a * p + b / 2 && (a * (2 * p) + b) % 2 == b % 2
  {
    assert a * (2 * p) == 2 * (a * p);
  }

  /** Exclusive-or digit by digit to the base 16. */
  lemma XorDigit(a: nat, b: nat, c: nat, d: nat)
    requires b < 16 && d < 16
    ensures Xor(16 * a + b, 16 * c + d) == 16 * Xor(a, c) + Xor(b, d)
  {
    hide Xor;
    assert Pow2(4) == 16;
    hide Pow2;
    XorParts(a, b, c, d, 4);
  }

  lemma DigitsXored()
    ensures Xor(4, 5) == 1 && Xor(8, 0xe) == 6 && Xor(1, 5) == 4
  {
  }

  lemma MoreDigitsXored()
    ensures Xor(1, 3) == 2 && Xor(7, 0xe) == 9 && Xor(0, 3) == 3
  {
  }

  lemma OtherDigitsXored()
    ensures Xor(3, 0xa) == 9 && Xor(0xb, 1) == 0xa
  {
  }

  lemma LastDigitsXored()
    ensures Xor(0xb, 7) == 0xc
  {
  }

  lemma WordsXored()
    ensures Xor(1, 0x43b0d7e5) == 0x43b0d7e4
    ensures Xor(0xe3e57184, 0xe3e5) == 0xe3e59261 && Xor(0x371a0bb3, 0x371a) == 0x371a3ca9
  {
    hide Xor;
    DigitsXored();
    MoreDigitsXored();
    OtherDigitsXored();
    LastDigitsXored();
    XorZero(0xe3e5);
    XorDigit(0xe3e5, 7, 0, 0xe);
    XorDigit(0xe3e57, 1, 0xe, 3);
    XorDigit(0xe3e571, 8, 0xe3, 0xe);
    XorDigit(0xe3e5718, 4, 0xe3e, 5);
    XorZero(0x371a);
    XorDigit(0x371a, 0, 0, 3);
    XorDigit(0x371a0, 0xb, 3, 7);
    XorDigit(0x371a0b, 0xb, 0x37, 1);
    XorDigit(0x371a0bb, 3, 0x371, 0xa);
    ZeroXor(0x43b0d7e);
    XorDigit(0, 1, 0x43b0d7e, 5);
  }

  lemma {:induction false} ZeroXor(a: nat)
    ensures Xor(0, a) == a
    decreases a
  {
    if a > 0 {
      XorStep(0, a);
      ZeroXor(a / 2);
    }
  }

  lemma HighXored(v: word, h: nat, x: word)
    requires h == v / 0x1_0000 && Xor(v, h) == x
    ensures XorHigh(v) == x
  {
    hide Xor, Shr, Pow2;
    Pow2Is();
    ShrIs(v, 16, h, v % 0x1_0000);
  }

  lemma FirstConsts()
    ensures HashConst(0) == 0x43b0d7e5 && HashConst(1) == 0xae5a53a9
  {
  }

  /** The first hash call of a round maps 1 to this word, and 2 is mixed into 1 with that result. */
  lemma HashAndMixValues()
    ensures Hash(1, 0) == 0xe3e59261 && Mix(1, 2) == 0x371a3ca9
  {
    hide XorHigh, Xor, HashConst;
    FirstConsts();
    WordsXored();
    HighXored(0xe3e57184, 0xe3e5, 0xe3e59261);
    HighXored(0x371a0bb3, 0x371a, 0x371a3ca9);
  }
}
