/** The hash and mix functions of the entropy mixer of randutils, and the functions that undo them. */
module Mixing {
  import opened Words

  const INIT_A: word := 0x43b0d7e5
  const MULT_A: word := 0x931e8875
  const MIX_MULT_L: word := 0xca01f9dd
  const MIX_MULT_R: word := 0x4973f715
  const MINUS_ONE: word := 0xffff_ffff

  // The inverses of MULT_A and MIX_MULT_L, which param computes as powers (SeedSeq.Param).
  const INV_A: word := 0xb02507dd
  const MIX_INV_L: word := 0x16ea2675

  // ----- powers

  function Pow(x: word, e: nat): word {
    if e == 0 then 1 else Mul(x, Pow(x, e - 1))
  }

  lemma {:induction false} PowAdd(x: word, a: nat, b: nat)
    ensures Pow(x, a + b) == Mul(Pow(x, a), Pow(x, b))
  {
    hide Mul;
    MulOne(Pow(x, b));
    if a > 0 {
      PowAdd(x, a - 1, b);
      MulAssoc(x, Pow(x, a - 1), Pow(x, b));
    }
  }

  lemma {:induction false} PowOfSquare(x: word, e: nat)
    ensures Pow(Mul(x, x), e) == Pow(x, 2 * e)
  {
    if e > 0 {
      PowOfSquare(x, e - 1);
      MulAssoc(x, x, Pow(x, 2 * (e - 1)));
      assert Pow(x, 2 * e) == Mul(x, Pow(x, 2 * e - 1));
      assert Pow(x, 2 * e - 1) == Mul(x, Pow(x, 2 * e - 2));
    }
  }

  /** x is congruent to 1 modulo 2^k. */
  ghost predicate IsOneMod(x: int, k: nat) {
    exists t: nat :: x == 1 + t * Pow2(k)
  }

  /** Wrapping around at 2^32 keeps the class modulo any smaller power of two. */
  lemma WrapKeepsClass(x: nat, t: nat, k: nat)
    requires 1 <= k <= 32 && x == 1 + t * Pow2(k)
    ensures IsOneMod(x % WORD, k)
  {
    Pow2Is();
    Pow2Add(32 - k, k);
    var p, c, q := Pow2(k), Pow2(32 - k), x / WORD;
    var u := t - q * c;
    SubtractMultiple(x, t, p, c, q, WORD);
    assert p == 2 * Pow2(k - 1);
    if u < 0 {
      NegativeMultiple(u, p);
      assert false;
    }
  }

  lemma SubtractMultiple(x: int, t: int, p: int, c: int, q: int, w: int)
    requires x == 1 + t * p && c * p == w
    ensures x - q * w == 1 + (t - q * c) * p
  {
    assert q * (c * p) == q * c * p;
    Distribute(t, q * c, p);
  }

  lemma Distribute(a: int, b: int, p: int)
    ensures (a - b) * p == a * p - b * p
  {
  }

  lemma NegativeMultiple(u: int, p: int)
    requires u < 0 && p > 0
    ensures u * p <= -p
  {
  }

  lemma SquareExpand(t: nat, h: nat)
    ensures (1 + t * (2 * h)) * (1 + t * (2 * h)) == 1 + (t + t * t * h) * (2 * (2 * h))
  {
    var a := t * h;
    assert t * (2 * h) == 2 * a;
    assert (1 + 2 * a) * (1 + 2 * a) == 1 + 4 * a + 4 * (a * a);
    assert a * a == t * t * h * h;
    assert (t + t * t * h) * (4 * h) == 4 * a + 4 * (t * t * h * h);
  }

  /** Squaring a number congruent to 1 modulo 2^k makes it congruent to 1 modulo 2^(k+1). */
  lemma SquareLifts(x: word, k: nat)
    requires 1 <= k < 32 && IsOneMod(x, k)
    ensures IsOneMod(Mul(x, x), k + 1)
  {
    var t: nat :| x == 1 + t * Pow2(k);
    var h := Pow2(k - 1);
    assert Pow2(k) == 2 * h;
    SquareExpand(t, h);
    WrapKeepsClass(x * x, t + t * t * h, k + 1);
  }

  lemma {:induction false} PowerOfOdd(x: word, k: nat)
    requires x % 2 == 1 && k < 32
    ensures IsOneMod(Pow(x, Pow2(k)), k + 1)
  {
    if k == 0 {
      assert Pow2(0) == 1 && Pow2(1) == 2;
      assert Pow(x, 1) == Mul(x, Pow(x, 0)) == x;
      assert x == 1 + x / 2 * Pow2(1);
    } else {
      PowerOfOdd(x, k - 1);
      PowAdd(x, Pow2(k - 1), Pow2(k - 1));
      SquareLifts(Pow(x, Pow2(k - 1)), k);
    }
  }

  /** The 2^32nd power of every odd word is 1. */
  lemma OddPowerIsOne(x: word)
    requires x % 2 == 1
    ensures Pow(x, WORD) == 1
  {
    hide *;
    HalfOfWord();
    PowerOfOdd(x, 31);
    OnlyOneIsOneMod(Pow(x, Pow2(31)));
    PowAdd(x, Pow2(31), Pow2(31));
    MulOne(1);
  }

  lemma HalfOfWord()
    ensures Pow2(31) + Pow2(31) == WORD
  {
    Pow2Is();
    assert Pow2(32) == 2 * Pow2(31);
  }

  lemma OnlyOneIsOneMod(y: word)
    requires IsOneMod(y, 32)
    ensures y == 1
  {
    hide Pow2;
    Pow2Is();
    var t: nat :| y == 1 + t * Pow2(32);
    assert t == 0;
  }

  /** Raising to the power -1, that is 2^32 - 1, inverts every odd word. */
  lemma PowMinusOneInverts(x: word)
    requires x % 2 == 1
    ensures Mul(x, Pow(x, MINUS_ONE)) == 1
  {
    OddPowerIsOne(x);
  }

  lemma {:induction false} PowPeriod(x: word, n: nat, q: nat, r: nat)
    requires Pow(x, n) == 1
    ensures Pow(x, q * n + r) == Pow(x, r)
    decreases q
  {
    hide Mul;
    if q > 0 {
      Distribute(q, 1, n);
      PowAdd(x, n, (q - 1) * n + r);
      PowPeriod(x, n, q - 1, r);
      MulOne(Pow(x, r));
    }
  }

  /** Exponents of an odd word can be reduced modulo 2^32. */
  lemma PowWraps(x: word, e: nat)
    requires x % 2 == 1
    ensures Pow(x, e % WORD) == Pow(x, e)
  {
    OddPowerIsOne(x);
    PowPeriod(x, WORD, e / WORD, e % WORD);
  }

  // ----- hash and mix

  /** The value of hash_const before the k-th hash call of a round. */
  function HashConst(k: nat): (r: word)
    ensures r % 2 == 1
  {
    if k == 0 then INIT_A
    else
      OddTimesOdd(HashConst(k - 1), MULT_A);
      Mul(HashConst(k - 1), MULT_A)
  }

  lemma OddTimesOdd(a: word, b: word)
    requires a % 2 == 1 && b % 2 == 1
    ensures Mul(a, b) % 2 == 1
  {
    OddProduct(a, b, a / 2, b / 2);
    ParityKept(a * b);
  }

  lemma ParityKept(x: nat)
    ensures x % WORD % 2 == x % 2
  {
  }

  lemma OddProduct(a: nat, b: nat, i: nat, j: nat)
    requires a == 2 * i + 1 && b == 2 * j + 1
    ensures a * b % 2 == 1
  {
    assert a * b == 2 * (i * b) + b;
  }

  function XorWord(a: word, b: word): word {
    Pow2Is();
    XorBelow(a, b, 32);
    Xor(a, b)
  }

  /** The k-th hash call of a round. */
  function Hash(v: word, k: nat): word {
    XorHigh(Mul(XorWord(v, HashConst(k)), HashConst(k + 1)))
  }

  function Unhash(h: word, k: nat): word {
    XorWord(Mul(XorHigh(h), Pow(HashConst(k + 1), MINUS_ONE)), HashConst(k))
  }

  function Mix(x: word, y: word): word {
    XorHigh(Sub(Mul(MIX_MULT_L, x), Mul(MIX_MULT_R, y)))
  }

  function Unmix(m: word, y: word): word {
    Mul(Add(XorHigh(m), Mul(MIX_MULT_R, y)), MIX_INV_L)
  }

  lemma HashInverse(v: word, k: nat)
    ensures Unhash(Hash(v, k), k) == v
    ensures Hash(Unhash(v, k), k) == v
  {
    var c := HashConst(k + 1);
    var inv := Pow(c, MINUS_ONE);
    PowMinusOneInverts(c);
    XorHighInvolution(Mul(XorWord(v, HashConst(k)), c));
    XorHighInvolution(v);
    MulCancel(XorWord(v, HashConst(k)), c, inv);
    MulCancel(XorHigh(v), c, inv);
    XorUndo(v, HashConst(k));
    XorUndo(Mul(XorHigh(v), inv), HashConst(k));
  }

  lemma AddSub(a: word, b: word)
    ensures Add(Sub(a, b), b) == a && Sub(Add(a, b), b) == a
  {
  }

  lemma InverseConstants()
    ensures Mul(MULT_A, INV_A) == 1
    ensures Mul(MIX_MULT_L, MIX_INV_L) == 1
  {
  }

  lemma ScaleInverse(x: word, r: word, l: word, inv: word)
    requires Mul(l, inv) == 1
    ensures Mul(Add(XorHigh(XorHigh(Sub(Mul(l, x), r))), r), inv) == x
    ensures XorHigh(Sub(Mul(l, Mul(Add(XorHigh(x), r), inv)), r)) == x
  {
    XorHighInvolution(Sub(Mul(l, x), r));
    AddSub(Mul(l, x), r);
    MulComm(l, x);
    MulCancel(x, l, inv);
    var u := Add(XorHigh(x), r);
    MulComm(l, Mul(u, inv));
    MulCancel(u, l, inv);
    AddSub(XorHigh(x), r);
    XorHighInvolution(x);
  }

  lemma MixInverse(x: word, y: word)
    ensures Unmix(Mix(x, y), y) == x
    ensures Mix(Unmix(x, y), y) == x
  {
    ScaleInverse(x, Mul(MIX_MULT_R, y), MIX_MULT_L, MIX_INV_L);
  }

  lemma OddFactorCancels(y: word, z: word, m: word)
    requires m % 2 == 1 && Mul(m, y) == Mul(m, z)
    ensures y == z
  {
    PowMinusOneInverts(m);
    MulComm(m, y);
    MulComm(m, z);
    MulInjective(y, z, m, Pow(m, MINUS_ONE));
  }

  lemma SubInjective(l: word, a: word, b: word)
    requires Sub(l, a) == Sub(l, b)
    ensures a == b
  {
  }

  lemma XorHighInjective(a: word, b: word)
    requires XorHigh(a) == XorHigh(b)
    ensures a == b
  {
    XorHighInvolution(a);
    XorHighInvolution(b);
  }

  lemma ScaledDifferenceInjective(l: word, r: word, y: word, z: word)
    requires r % 2 == 1
    requires XorHigh(Sub(l, Mul(r, y))) == XorHigh(Sub(l, Mul(r, z)))
    ensures y == z
  {
    hide Mul, XorHigh, Sub;
    XorHighInjective(Sub(l, Mul(r, y)), Sub(l, Mul(r, z)));
    SubInjective(l, Mul(r, y), Mul(r, z));
    OddFactorCancels(y, z, r);
  }

  /** Mixing different values into the same word gives different words. */
  lemma MixInjectiveInSource(x: word, y: word, z: word)
    requires Mix(x, y) == Mix(x, z)
    ensures y == z
  {
    hide Mul, XorHigh, Sub;
    ScaledDifferenceInjective(Mul(MIX_MULT_L, x), MIX_MULT_R, y, z);
  }
}
