/** stbi__bitreverse16 and stbi__bit_reverse: swapping neighbours, pairs, nibbles and bytes. */
module BitReversal {
  import opened Words
  import opened Lookup

  /** Bitwise and. */
  function And(a: nat, b: nat): nat
    decreases a + b
  {
    if a == 0 && b == 0 then 0
    else (if a % 2 == 1 && b % 2 == 1 then 1 else 0) + 2 * And(a / 2, b / 2)
  }

  /** Bitwise or. */
  function Or(a: nat, b: nat): nat
    decreases a + b
  {
    if a == 0 && b == 0 then 0
    else (if a % 2 == 1 || b % 2 == 1 then 1 else 0) + 2 * Or(a / 2, b / 2)
  }

  /** Swaps the bits selected by the mask hi with those k places below, selected by the mask lo. */
  function Swap(n: nat, hi: nat, lo: nat, k: nat): nat {
    Or(Shr(And(n, hi), k), Shl(And(n, lo), k))
  }

  function BitReverse16(n0: nat): nat {
    var n1 := Swap(n0, 0xAAAA, 0x5555, 1);
    var n2 := Swap(n1, 0xCCCC, 0x3333, 2);
    var n3 := Swap(n2, 0xF0F0, 0x0F0F, 4);
    Swap(n3, 0xFF00, 0x00FF, 8)
  }

  function BitReverse(v: nat, bits: nat): nat
    requires bits <= 16
  {
    Shr(BitReverse16(v), 16 - bits)
  }

  // ----- single bits

  predicate Bit(a: nat, i: nat) {
    Shr(a, i) % 2 == 1
  }

  lemma {:induction false} AndStep(a: nat, b: nat)
    ensures And(a, b) / 2 == And(a / 2, b / 2)
    ensures And(a, b) % 2 == 1 <==> a % 2 == 1 && b % 2 == 1
  {
  }

  lemma {:induction false} OrStep(a: nat, b: nat)
    ensures Or(a, b) / 2 == Or(a / 2, b / 2)
    ensures Or(a, b) % 2 == 1 <==> a % 2 == 1 || b % 2 == 1
  {
  }

  lemma {:induction false} BitOfAnd(a: nat, b: nat, i: nat)
    ensures Bit(And(a, b), i) <==> Bit(a, i) && Bit(b, i)
    decreases i
  {
    AndStep(a, b);
    if i > 0 {
      BitOfAnd(a / 2, b / 2, i - 1);
    }
  }

  lemma {:induction false} BitOfOr(a: nat, b: nat, i: nat)
    ensures Bit(Or(a, b), i) <==> Bit(a, i) || Bit(b, i)
    decreases i
  {
    OrStep(a, b);
    if i > 0 {
      BitOfOr(a / 2, b / 2, i - 1);
    }
  }

  lemma {:induction false} BitOfShl(a: nat, k: nat, i: nat)
    ensures Bit(Shl(a, k), i) <==> i >= k && Bit(a, i - k)
    decreases k
  {
    if k == 0 {
      assert Pow2(0) == 1;
    } else {
      MulSwap(a, Pow2(k - 1));
      if i > 0 {
        BitOfShl(a, k - 1, i - 1);
      }
    }
  }

  lemma {:induction false} BitOfSwap(n: nat, hi: nat, lo: nat, k: nat, i: nat)
    ensures Bit(Swap(n, hi, lo, k), i)
            <==> (Bit(n, i + k) && Bit(hi, i + k)) || (i >= k && Bit(n, i - k) && Bit(lo, i - k))
  {
    BitOfOr(Shr(And(n, hi), k), Shl(And(n, lo), k), i);
    ShrShr(And(n, hi), k, i);
    BitOfAnd(n, hi, i + k);
    BitOfShl(And(n, lo), k, i);
    if i >= k {
      BitOfAnd(n, lo, i - k);
    }
  }

  lemma {:induction false} BitOfReverse(x: nat, n: nat, i: nat)
    ensures Bit(Reverse(x, n), i) <==> i < n && Bit(x, n - 1 - i)
    decreases n
  {
    if n > 0 {
      ReverseLast(x, n);
      var r := Reverse(x, n);
      assert r / 2 == Reverse(x, n - 1) && r % 2 == Shr(x, n - 1) % 2;
      if i > 0 {
        BitOfReverse(x, n - 1, i - 1);
      }
    } else {
      ShrOfZero(i);
    }
  }

  lemma {:induction false} ShrOfZero(i: nat)
    ensures Shr(0, i) == 0
  {
    if i > 0 {
      ShrOfZero(i - 1);
    }
  }

  /** Two numbers with the same bits are the same. */
  lemma {:induction false} BitsDetermine(a: nat, b: nat)
    requires forall i: nat :: Bit(a, i) <==> Bit(b, i)
    ensures a == b
    decreases a + b
  {
    assert Bit(a, 0) <==> Bit(b, 0);
    forall i: nat ensures Bit(a / 2, i) <==> Bit(b / 2, i) {
      assert Bit(a, i + 1) <==> Bit(b, i + 1);
    }
    if a > 0 || b > 0 {
      BitsDetermine(a / 2, b / 2);
    }
  }

  // ----- the masks

  /** Of the groups of k bits, counted from 0, the odd ones. */
  predicate InOddGroup(k: nat, i: nat)
    requires k > 0
  {
    i / k % 2 == 1
  }

  lemma {:induction false} GroupOf(k: nat, i: nat, q: nat)
    requires k > 0 && q * k <= i < q * k + k
    ensures InOddGroup(k, i) <==> q % 2 == 1
  {
    QuotientIs(i / k, i % k, q, i - q * k, k);
  }

  /** The mask, from bit j up to bit 15, of every second group of k bits. */
  function Stripes(k: nat, odd: bool, j: nat): nat
    requires k > 0
    decreases 16 - j
  {
    if j >= 16 then 0 else (if InOddGroup(k, j) == odd then 1 else 0) + 2 * Stripes(k, odd, j + 1)
  }

  lemma {:induction false} BitOfStripes(k: nat, odd: bool, j: nat, i: nat)
    requires k > 0
    ensures Bit(Stripes(k, odd, j), i) <==> j + i < 16 && InOddGroup(k, j + i) == odd
    decreases i
  {
    hide *;
    if j >= 16 {
      NoStripes(k, odd, j);
      NoBitIsSet(i);
    } else {
      StripesStep(k, odd, j);
      if i > 0 {
        LaterBit(Stripes(k, odd, j), i);
        BitOfStripes(k, odd, j + 1, i - 1);
      } else {
        LowestBit(Stripes(k, odd, j));
      }
    }
  }

  lemma NoStripes(k: nat, odd: bool, j: nat)
    requires k > 0 && j >= 16
    ensures Stripes(k, odd, j) == 0
  {
  }

  lemma {:induction false} StripesStep(k: nat, odd: bool, j: nat)
    requires k > 0 && j < 16
    ensures Stripes(k, odd, j) / 2 == Stripes(k, odd, j + 1)
    ensures Stripes(k, odd, j) % 2 == 1 <==> InOddGroup(k, j) == odd
  {
    hide InOddGroup;
  }

  lemma NoBitIsSet(i: nat)
    ensures !Bit(0, i)
  {
    ShrOfZero(i);
  }

  lemma LaterBit(a: nat, i: nat)
    requires i > 0
    ensures Bit(a, i) <==> Bit(a / 2, i - 1)
  {
  }

  lemma LowestBit(a: nat)
    ensures Bit(a, 0) <==> a % 2 == 1
  {
  }

  lemma {:induction false} OddMask1()
    ensures Stripes(1, true, 0) == 0xAAAA
  {
    assert Stripes(1, true, 14) == 0x2;
    assert Stripes(1, true, 12) == 0xA;
    assert Stripes(1, true, 10) == 0x2A;
    assert Stripes(1, true, 8) == 0xAA;
    assert Stripes(1, true, 6) == 0x2AA;
    assert Stripes(1, true, 4) == 0xAAA;
    assert Stripes(1, true, 2) == 0x2AAA;
  }

  lemma {:induction false} EvenMask1()
    ensures Stripes(1, false, 0) == 0x5555
  {
    assert Stripes(1, false, 14) == 0x1;
    assert Stripes(1, false, 12) == 0x5;
    assert Stripes(1, false, 10) == 0x15;
    assert Stripes(1, false, 8) == 0x55;
    assert Stripes(1, false, 6) == 0x155;
    assert Stripes(1, false, 4) == 0x555;
    assert Stripes(1, false, 2) == 0x1555;
  }

  lemma {:induction false} OddMask2()
    ensures Stripes(2, true, 0) == 0xCCCC
  {
    assert Stripes(2, true, 14) == 0x3;
    assert Stripes(2, true, 12) == 0xC;
    assert Stripes(2, true, 10) == 0x33;
    assert Stripes(2, true, 8) == 0xCC;
    assert Stripes(2, true, 6) == 0x333;
    assert Stripes(2, true, 4) == 0xCCC;
    assert Stripes(2, true, 2) == 0x3333;
  }

  lemma {:induction false} EvenMask2()
    ensures Stripes(2, false, 0) == 0x3333
  {
    assert Stripes(2, false, 14) == 0x0;
    assert Stripes(2, false, 12) == 0x3;
    assert Stripes(2, false, 10) == 0xC;
    assert Stripes(2, false, 8) == 0x33;
    assert Stripes(2, false, 6) == 0xCC;
    assert Stripes(2, false, 4) == 0x333;
    assert Stripes(2, false, 2) == 0xCCC;
  }

  lemma {:induction false} OddMask4()
    ensures Stripes(4, true, 0) == 0xF0F0
  {
    assert Stripes(4, true, 14) == 0x3;
    assert Stripes(4, true, 12) == 0xF;
    assert Stripes(4, true, 10) == 0x3C;
    assert Stripes(4, true, 8) == 0xF0;
    assert Stripes(4, true, 6) == 0x3C3;
    assert Stripes(4, true, 4) == 0xF0F;
    assert Stripes(4, true, 2) == 0x3C3C;
  }

  lemma {:induction false} EvenMask4()
    ensures Stripes(4, false, 0) == 0x0F0F
  {
    assert Stripes(4, false, 14) == 0x0;
    assert Stripes(4, false, 12) == 0x0;
    assert Stripes(4, false, 10) == 0x3;
    assert Stripes(4, false, 8) == 0xF;
    assert Stripes(4, false, 6) == 0x3C;
    assert Stripes(4, false, 4) == 0xF0;
    assert Stripes(4, false, 2) == 0x3C3;
  }

  lemma {:induction false} OddMask8()
    ensures Stripes(8, true, 0) == 0xFF00
  {
    assert Stripes(8, true, 14) == 0x3;
    assert Stripes(8, true, 12) == 0xF;
    assert Stripes(8, true, 10) == 0x3F;
    assert Stripes(8, true, 8) == 0xFF;
    assert Stripes(8, true, 6) == 0x3FC;
    assert Stripes(8, true, 4) == 0xFF0;
    assert Stripes(8, true, 2) == 0x3FC0;
  }

  lemma {:induction false} EvenMask8()
    ensures Stripes(8, false, 0) == 0x00FF
  {
    assert Stripes(8, false, 14) == 0x0;
    assert Stripes(8, false, 12) == 0x0;
    assert Stripes(8, false, 10) == 0x0;
    assert Stripes(8, false, 8) == 0x0;
    assert Stripes(8, false, 6) == 0x3;
    assert Stripes(8, false, 4) == 0xF;
    assert Stripes(8, false, 2) == 0x3F;
  }

  /** Where bit i comes from when neighbouring groups of k bits are swapped. */
  function Partner(k: nat, i: nat): nat
    requires k == 1 || k == 2 || k == 4 || k == 8
  {
    if InOddGroup(k, i) then i - k else i + k
  }

  lemma GroupsAlternate(k: nat, i: nat)
    requires k == 1 || k == 2 || k == 4 || k == 8
    ensures InOddGroup(k, i + k) != InOddGroup(k, i)
    ensures i >= k ==> InOddGroup(k, i - k) != InOddGroup(k, i)
    ensures i < k ==> !InOddGroup(k, i)
    ensures i < 16 && !InOddGroup(k, i) ==> i + k < 16
    ensures 16 <= i < 16 + k ==> !InOddGroup(k, i)
  {
    hide InOddGroup;
    GroupStep(k, i);
    if i >= k {
      GroupStep(k, i - k);
    } else {
      GroupOf(k, i, 0);
    }
    var q := if k == 1 then 16 else if k == 2 then 8 else if k == 4 then 4 else 2;
    if 16 <= i < 16 + k {
      GroupOf(k, i, q);
    } else if 16 - k <= i < 16 {
      GroupOf(k, i, q - 1);
    }
  }

  lemma GroupStep(k: nat, i: nat)
    requires k > 0
    ensures InOddGroup(k, i + k) != InOddGroup(k, i)
  {
    hide InOddGroup;
    var q := i / k;
    assert q * k <= i < q * k + k;
    assert (q + 1) * k == q * k + k;
    GroupOf(k, i, q);
    GroupOf(k, i + k, q + 1);
  }

  lemma {:induction false} BitOfStage(n: nat, k: nat, i: nat)
    requires k == 1 || k == 2 || k == 4 || k == 8
    ensures Bit(Swap(n, Stripes(k, true, 0), Stripes(k, false, 0), k), i) <==> i < 16 && Bit(n, Partner(k, i))
  {
    hide Bit, Swap, Stripes, InOddGroup;
    GroupsAlternate(k, i);
    BitOfSwap(n, Stripes(k, true, 0), Stripes(k, false, 0), k, i);
    BitOfStripes(k, true, 0, i + k);
    if i >= k {
      BitOfStripes(k, false, 0, i - k);
    }
  }

  lemma {:induction false} BitOfBitReverse16(n: nat, i: nat)
    ensures Bit(BitReverse16(n), i) <==> i < 16 && Bit(n, 15 - i)
  {
    hide Bit, Swap, Stripes;
    OddMask1();
    EvenMask1();
    OddMask2();
    EvenMask2();
    OddMask4();
    EvenMask4();
    OddMask8();
    EvenMask8();
    var n1 := Swap(n, 0xAAAA, 0x5555, 1);
    var n2 := Swap(n1, 0xCCCC, 0x3333, 2);
    var n3 := Swap(n2, 0xF0F0, 0x0F0F, 4);
    BitOfStage(n3, 8, i);
    if i < 16 {
      var i8 := Partner(8, i);
      var i4 := Partner(4, i8);
      var i2 := Partner(2, i4);
      BitOfStage(n2, 4, i8);
      BitOfStage(n1, 2, i4);
      BitOfStage(n, 1, i2);
      assert Partner(1, i2) == 15 - i;
    }
  }

  // ----- the result

  /** The masks and shifts reverse the 16 low bits. */
  lemma {:induction false} BitReverse16Reverses(n: nat)
    ensures BitReverse16(n) == Reverse(n, 16)
  {
    hide Bit, BitReverse16, Reverse;
    forall i: nat ensures Bit(BitReverse16(n), i) <==> Bit(Reverse(n, 16), i) {
      BitOfBitReverse16(n, i);
      BitOfReverse(n, 16, i);
    }
    BitsDetermine(BitReverse16(n), Reverse(n, 16));
  }

  /** stbi__bit_reverse reverses the given number of bits. */
  lemma {:induction false} BitReverseReverses(v: nat, bits: nat)
    requires bits <= 16
    ensures BitReverse(v, bits) == Reverse(v, bits)
  {
    hide BitReverse16, Reverse;
    BitReverse16Reverses(v);
    ReverseTop(v, bits, 16);
  }

  /** Or-ing bits above the n low ones adds them. */
  lemma {:induction false} OrDisjoint(a: nat, b: nat, n: nat)
    requires a < Pow2(n)
    ensures Or(a, Shl(b, n)) == a + Shl(b, n)
    decreases n
  {
    if n == 0 {
      assert Pow2(0) == 1;
      OrZero(b);
    } else {
      MulSwap(b, Pow2(n - 1));
      OrDisjoint(a / 2, b, n - 1);
    }
  }

  lemma {:induction false} OrZero(b: nat)
    ensures Or(0, b) == b
  {
    if b > 0 {
      OrZero(b / 2);
    }
  }
}
