/**
 Unsigned 32-bit words, as the C++ sources use them: sums, differences and products wrap
 around at 2^32. Exclusive-or is defined bit by bit, so its laws are proved by induction.
 */
module Words {

  const WORD := 0x1_0000_0000

  type word = x: int | 0 <= x < WORD

  function Add(a: word, b: word): word {
    (a + b) % WORD
  }

  function Sub(a: word, b: word): word {
    (a - b) % WORD
  }

  function Mul(a: word, b: word): word {
    (a * b) % WORD
  }

  /** Bitwise exclusive or. */
  function Xor(a: nat, b: nat): nat
    decreases a + b
  {
    if a == 0 && b == 0 then 0
    else (if a % 2 == b % 2 then 0 else 1) + 2 * Xor(a / 2, b / 2)
  }

  /** Logical shift to the right by n bits. */
  function Shr(a: nat, n: nat): nat {
    if n == 0 then a else Shr(a / 2, n - 1)
  }

  /** Shift to the left by n bits. */
  function Shl(a: nat, n: nat): nat {
    a * Pow2(n)
  }

  /** The n low bits. */
  function Low(a: nat, n: nat): nat {
    if n == 0 then 0 else a % 2 + 2 * Low(a / 2, n - 1)
  }

  function Pow2(n: nat): (r: nat)
    ensures r > 0
  {
    if n == 0 then 1 else 2 * Pow2(n - 1)
  }

  // ----- wrap-around arithmetic is a commutative ring

  lemma ModIs(x: int, q: int, r: word)
    requires x == q * WORD + r
    ensures x % WORD == r
  {
    assert (x % WORD - r) % WORD == 0;
  }

  lemma MulReducedLeft(x: int, b: int)
    ensures (x % WORD * b) % WORD == (x * b) % WORD
  {
    var q, r := x / WORD, (x % WORD * b) % WORD;
    assert x == q * WORD + x % WORD;
    assert x * b == q * WORD * b + x % WORD * b;
    assert q * WORD * b == (q * b) * WORD;
    ModIs(x * b, q * b + (x % WORD * b) / WORD, r);
  }

  lemma MulComm(a: word, b: word)
    ensures Mul(a, b) == Mul(b, a)
  {
    assert a * b == b * a;
  }

  lemma MulAssoc(a: word, b: word, c: word)
    ensures Mul(Mul(a, b), c) == Mul(a, Mul(b, c))
  {
    MulReducedLeft(a * b, c);
    MulReducedLeft(b * c, a);
    assert a * b * c == b * c * a;
    MulComm(a, Mul(b, c));
  }

  /** Multiplying by a word and then by its inverse changes nothing. */
  lemma MulCancel(x: word, m: word, inv: word)
    requires Mul(m, inv) == 1
    ensures Mul(Mul(x, m), inv) == x
    ensures Mul(Mul(x, inv), m) == x
  {
    hide *;
    MulAssoc(x, m, inv);
    MulAssoc(x, inv, m);
    MulComm(m, inv);
    MulOne(x);
  }

  lemma MulOne(a: word)
    ensures Mul(1, a) == a == Mul(a, 1)
  {
  }

  /** A factor that has an inverse can be cancelled. */
  lemma MulInjective(x: word, y: word, m: word, inv: word)
    requires Mul(m, inv) == 1
    requires Mul(x, m) == Mul(y, m)
    ensures x == y
  {
    MulCancel(x, m, inv);
    MulCancel(y, m, inv);
  }

  // ----- exclusive or

  lemma {:induction a, b} XorBelow(a: nat, b: nat, n: nat)
    requires a < Pow2(n) && b < Pow2(n)
    ensures Xor(a, b) < Pow2(n)
    decreases n
  {
    if n > 0 {
      XorBelow(a / 2, b / 2, n - 1);
    }
  }

  lemma XorZero(a: nat)
    ensures Xor(a, 0) == a
  {
  }

  lemma {:induction false} XorUndo(a: nat, b: nat)
    ensures Xor(Xor(a, b), b) == a
    decreases a + b
  {
    if a != 0 || b != 0 {
      XorStep(a, b);
      XorStep(Xor(a, b), b);
      XorUndo(a / 2, b / 2);
    }
  }

  lemma {:induction false} XorStep(a: nat, b: nat)
    ensures Xor(a, b) / 2 == Xor(a / 2, b / 2)
    ensures Xor(a, b) % 2 == if a % 2 == b % 2 then 0 else 1
    ensures Xor(a, b) == Xor(a, b) % 2 + 2 * Xor(a / 2, b / 2)
  {
  }

  lemma {:induction false} XorShift(a: nat, b: nat, n: nat)
    ensures Shr(Xor(a, b), n) == Xor(Shr(a, n), Shr(b, n))
    decreases n
  {
    if n > 0 {
      XorStep(a, b);
      XorShift(a / 2, b / 2, n - 1);
    }
  }

  lemma {:induction false} ShrShr(a: nat, m: nat, n: nat)
    ensures Shr(Shr(a, m), n) == Shr(a, m + n)
    decreases m
  {
    if m > 0 {
      ShrShr(a / 2, m - 1, n);
    }
  }

  lemma {:induction false} ShrBelow(a: nat, m: nat, n: nat)
    requires a < Pow2(m + n)
    ensures Shr(a, m) < Pow2(n)
    decreases m
  {
    if m > 0 {
      ShrBelow(a / 2, m - 1, n);
    }
  }

  /** Shifting right by n bits divides by 2^n, and the bits shifted out are the remainder. */
  lemma {:induction false} ShrSplit(a: nat, n: nat)
    ensures a == Shr(a, n) * Pow2(n) + Low(a, n)
    ensures Low(a, n) < Pow2(n)
    decreases n
  {
    if n > 0 {
      ShrSplit(a / 2, n - 1);
      MulSwap(Shr(a, n), Pow2(n - 1));
    }
  }

  lemma MulSwap(a: nat, c: nat)
    ensures 2 * a * c == a * (2 * c)
    ensures 2 * (a * c) == a * (2 * c)
  {
  }

  lemma MulMonotone(a: nat, b: nat, c: nat)
    requires a <= b
    ensures a * c <= b * c
  {
  }

  lemma QuotientIs(q: nat, r: nat, p: nat, s: nat, m: nat)
    requires q * m + r == p * m + s && r < m && s < m
    ensures q == p && r == s
  {
    if q < p {
      MulMonotone(q + 1, p, m);
    } else if p < q {
      MulMonotone(p + 1, q, m);
    }
  }

  /** A quotient of powers of two and a smaller remainder determine each other. */
  lemma {:induction false} ShrIs(a: nat, n: nat, q: nat, r: nat)
    requires a == q * Pow2(n) + r && r < Pow2(n)
    ensures Shr(a, n) == q && Low(a, n) == r
  {
    hide *;
    ShrSplit(a, n);
    QuotientIs(q, r, Shr(a, n), Low(a, n), Pow2(n));
  }

  /** Multiples of 2^n bound a shifted number as they bound the number. */
  lemma {:induction false} ShrBounds(a: nat, n: nat, b: nat)
    ensures b * Pow2(n) <= a <==> b <= Shr(a, n)
  {
    ShrSplit(a, n);
    if b <= Shr(a, n) {
      MulMonotone(b, Shr(a, n), Pow2(n));
    } else {
      MulMonotone(Shr(a, n) + 1, b, Pow2(n));
    }
  }

  lemma {:induction false} Pow2Add(a: nat, b: nat)
    ensures Pow2(a + b) == Pow2(a) * Pow2(b)
  {
    if a > 0 {
      Pow2Add(a - 1, b);
      MulSwap(Pow2(a - 1), Pow2(b));
    }
  }

  /** v ^ (v >> 16) on a 32-bit word. */
  function XorHigh(v: word): word {
    Pow2Is();
    ShrBelow(v, 16, 16);
    XorBelow(v, Shr(v, 16), 32);
    Xor(v, Shr(v, 16))
  }

  lemma Pow2Is()
    ensures Pow2(16) == 0x1_0000 && Pow2(32) == WORD
  {
    assert Pow2(8) == 0x100;
    assert Pow2(16) == 0x1_0000;
    assert Pow2(24) == 0x100_0000;
    assert Pow2(32) == WORD;
  }

  lemma HighHalfIsLast(v: word)
    ensures Shr(Shr(v, 16), 16) == 0
  {
    hide Shr;
    Pow2Is();
    ShrShr(v, 16, 16);
    ShrBelow(v, 32, 0);
    assert Pow2(0) == 1;
  }

  /** Shifting by half the width makes v ^ (v >> 16) its own inverse. */
  lemma XorHighInvolution(v: word)
    ensures XorHigh(XorHigh(v)) == v
  {
    hide Shr, Xor, Pow2;
    var h := Shr(v, 16);
    Pow2Is();
    XorShift(v, h, 16);
    HighHalfIsLast(v);
    XorZero(h);
    XorUndo(v, h);
  }
}
