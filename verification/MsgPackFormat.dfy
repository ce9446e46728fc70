/** The format and the order of MessagePack values, said in the terms of the standards behind them. */
module MsgPackFormat {
  import opened MsgPack
  import opened MsgPackRoundTrip
  import opened Sequences
  import W = Words

  // ----- first bytes

  /**
   What the MessagePack specification assigns to the 256 first bytes: small numbers and sizes are part of them,
   and otherwise consecutive bytes stand for numbers and sizes of 1, 2, 4 and 8 bytes.
   */
  lemma FirstBytes(b: byte, e: nat)
    ensures b < 0x80 ==> HeaderOf(b) == SmallUint(b)
    ensures 0x80 <= b < 0x90 ==> HeaderOf(b) == MapOf(Given(b % 16))
    ensures 0x90 <= b < 0xa0 ==> HeaderOf(b) == ArrayOf(Given(b % 16))
    ensures 0xa0 <= b < 0xc0 ==> HeaderOf(b) == StringOf(Given(b % 32))
    ensures b >= 0xe0 ==> HeaderOf(b) == SmallInt(b - 0x100)
    ensures HeaderOf(0xc0) == NilHeader && HeaderOf(0xc1) == Unused
    ensures HeaderOf(0xc2) == BoolHeader(false) && HeaderOf(0xc3) == BoolHeader(true)
    ensures HeaderOf(0xca) == FloatHeader && HeaderOf(0xcb) == DoubleHeader
    ensures e < 4 ==> HeaderOf(0xcc + e) == UintHeader(W.Pow2(e)) && HeaderOf(0xd0 + e) == IntHeader(W.Pow2(e))
    ensures e < 3 ==> HeaderOf(0xc4 + e) == BinaryOf(Follows(W.Pow2(e)))
    ensures e < 3 ==> HeaderOf(0xc7 + e) == ExtensionOf(Follows(W.Pow2(e)))
    ensures e < 3 ==> HeaderOf(0xd9 + e) == StringOf(Follows(W.Pow2(e)))
    ensures e < 5 ==> HeaderOf(0xd4 + e) == ExtensionOf(Given(W.Pow2(e)))
    ensures e == 1 || e == 2 ==> HeaderOf(0xdb + e) == ArrayOf(Follows(W.Pow2(e)))
    ensures e == 1 || e == 2 ==> HeaderOf(0xdd + e) == MapOf(Follows(W.Pow2(e)))
  {
    SmallPowers();
    hide W.Pow2;
  }

  lemma SmallPowers()
    ensures W.Pow2(0) == 1 && W.Pow2(1) == 2 && W.Pow2(2) == 4 && W.Pow2(3) == 8 && W.Pow2(4) == 16
  {
  }

  /** Elements are in their order, a key comes before its value, and the type of an extension before its data. */
  lemma ContainerBytes(a: Pack, b: Pack, kind: byte, x: byte)
    requires Writable(a) && Writable(b)
    ensures Writable(Array([a, b])) && Bytes(Array([a, b])) == [0x92] + Bytes(a) + Bytes(b)
    ensures Writable(Map([Entry(a, b)])) && Bytes(Map([Entry(a, b)])) == [0x81] + Bytes(a) + Bytes(b)
    ensures Bytes(Extension(kind, [x])) == [0xd4, kind, x]
  {
    hide Bytes, AllBytes, EntriesBytes, AllWritable, EntriesWritable, Reversed;
    NoElements();
    assert [a, b] == [a] + ([b] + []) && [Entry(a, b)] == [Entry(a, b)] + [];
    FirstElement(b, []);
    FirstElement(a, [b] + []);
    FirstEntry(a, b, []);
    BytesAre([a, b], [Entry(a, b)], kind, [x]);
    assert Reversed([x]) == [x] by {
      ReversedOne(x);
    }
  }

  lemma NoElements()
    ensures AllWritable([]) && AllBytes([]) == [] && EntriesWritable([]) && EntriesBytes([]) == []
  {
  }

  lemma FirstElement(a: Pack, es: seq<Pack>)
    requires Writable(a) && AllWritable(es)
    ensures AllWritable([a] + es) && AllBytes([a] + es) == Bytes(a) + AllBytes(es)
  {
    hide Writable, Bytes;
    assert ([a] + es)[1..] == es;
  }

  lemma FirstEntry(a: Pack, b: Pack, es: seq<Entry>)
    requires Writable(a) && Writable(b) && EntriesWritable(es)
    ensures EntriesWritable([Entry(a, b)] + es)
    ensures EntriesBytes([Entry(a, b)] + es) == Bytes(a) + Bytes(b) + EntriesBytes(es)
  {
    hide Writable, Bytes;
    assert ([Entry(a, b)] + es)[1..] == es;
  }

  lemma BytesAre(es: seq<Pack>, fs: seq<Entry>, kind: byte, d: seq<byte>)
    ensures |es| < 16 && AllWritable(es) ==> Writable(Array(es)) && Bytes(Array(es)) == [0x90 + |es|] + AllBytes(es)
    ensures |fs| < 16 && EntriesWritable(fs) ==> Writable(Map(fs)) && Bytes(Map(fs)) == [0x80 + |fs|] + EntriesBytes(fs)
    ensures |d| == 1 ==> Bytes(Extension(kind, d)) == [0xd4] + [kind] + Reversed(d)
  {
  }

  lemma ReversedOne(x: byte)
    ensures Reversed([x]) == [x]
  {
  }

  // ----- numbers

  /** Numbers are written with the most significant byte first. */
  lemma {:induction false} WireIsBigEndian(n: nat, k: nat, i: nat)
    requires i < k
    ensures Wire(n, k)[i] == n / Span(k - 1 - i) % 256
  {
    hide Memory, Span;
    ReversedAt(Memory(n, k), i);
    MemoryAt(n, k, k - 1 - i);
  }

  lemma {:induction false} MemoryAt(n: nat, k: nat, j: nat)
    requires j < k
    ensures Memory(n, k)[j] == n / Span(j) % 256
  {
    if j > 0 {
      MemoryAt(n / 256, k - 1, j - 1);
      DivideTwice(n, Span(j - 1));
    } else {
      assert Span(0) == 1;
    }
  }

  lemma DivideTwice(n: nat, p: nat)
    requires p > 0
    ensures n / 256 / p == n / (256 * p)
  {
    var q := n / (256 * p);
    var r := n % (256 * p);
    assert n == q * (256 * p) + r;
    assert q * (256 * p) == 256 * (q * p);
    assert n / 256 == q * p + r / 256;
    W.QuotientIs(n / 256 / p, n / 256 % p, q, r / 256, p);
  }

  // ----- the order of bytes

  /** The byte as a character: signed or not. */
  function AsChar(b: byte, signed: bool): int {
    if signed then (b + 128) % 256 - 128 else b
  }

  /** The first k bytes agree, and then s ends or has the smaller character. */
  ghost predicate SmallerAt(s: seq<byte>, t: seq<byte>, signed: bool, k: nat) {
    k <= |s| && k < |t| && s[..k] == t[..k] && (k < |s| ==> AsChar(s[k], signed) < AsChar(t[k], signed))
  }

  ghost predicate LexicographicallyBefore(s: seq<byte>, t: seq<byte>, signed: bool) {
    exists k :: SmallerAt(s, t, signed, k)
  }

  /** Strings and binary data are in lexicographic order, of unsigned characters and of signed ones. */
  lemma {:induction false} BytesAreLexicographic(s: seq<byte>, t: seq<byte>, signed: bool)
    ensures CompareBytes(s, t, signed).Before? <==> LexicographicallyBefore(s, t, signed)
  {
    hide LexicographicallyBefore, AsChar, ByteRank;
    if s == [] || t == [] {
      OneIsEmpty(s, t, signed);
    } else {
      BytesAreLexicographic(s[1..], t[1..], signed);
      CharsAreRanks(s[0], t[0], signed);
      if s[0] == t[0] {
        SameFirst(s, t, signed);
      } else {
        DifferentFirst(s, t, signed);
      }
    }
  }

  lemma OneIsEmpty(s: seq<byte>, t: seq<byte>, signed: bool)
    requires s == [] || t == []
    ensures LexicographicallyBefore(s, t, signed) <==> t != []
  {
    assert t != [] ==> s[..0] == t[..0] && SmallerAt(s, t, signed, 0);
  }

  lemma CharsAreRanks(b: byte, c: byte, signed: bool)
    ensures AsChar(b, signed) < AsChar(c, signed) <==> ByteRank(b, signed) < ByteRank(c, signed)
    ensures ByteRank(b, signed) == ByteRank(c, signed) <==> b == c
  {
  }

  lemma SameFirst(s: seq<byte>, t: seq<byte>, signed: bool)
    requires s != [] && t != [] && s[0] == t[0]
    ensures LexicographicallyBefore(s, t, signed) <==> LexicographicallyBefore(s[1..], t[1..], signed)
  {
    hide SmallerAt;
    SmallerFirst(s, t, signed);
    if LexicographicallyBefore(s, t, signed) {
      var k: nat :| SmallerAt(s, t, signed, k);
      SmallerBehind(s, t, signed, k - 1);
    }
    if LexicographicallyBefore(s[1..], t[1..], signed) {
      var k: nat :| SmallerAt(s[1..], t[1..], signed, k);
      SmallerBehind(s, t, signed, k);
    }
  }

  lemma SmallerFirst(s: seq<byte>, t: seq<byte>, signed: bool)
    requires s != [] && t != []
    ensures SmallerAt(s, t, signed, 0) <==> AsChar(s[0], signed) < AsChar(t[0], signed)
    ensures forall k: nat :: SmallerAt(s, t, signed, k) && k > 0 ==> s[0] == t[0]
  {
    hide AsChar;
    assert s[..0] == t[..0];
    forall k: nat | SmallerAt(s, t, signed, k) && k > 0 ensures s[0] == t[0] {
      FirstOfPrefix(s, t, k);
    }
  }

  lemma SmallerBehind(s: seq<byte>, t: seq<byte>, signed: bool, k: nat)
    requires s != [] && t != [] && s[0] == t[0]
    ensures SmallerAt(s, t, signed, k + 1) <==> SmallerAt(s[1..], t[1..], signed, k)
  {
    hide AsChar;
    if k < |s| && k < |t| {
      assert s[..k + 1] == [s[0]] + s[1..][..k] && t[..k + 1] == [t[0]] + t[1..][..k];
      assert s[..k + 1][1..] == s[1..][..k] && t[..k + 1][1..] == t[1..][..k];
    }
  }

  lemma FirstOfPrefix(s: seq<byte>, t: seq<byte>, k: nat)
    requires 0 < k <= |s| && k <= |t| && s[..k] == t[..k]
    ensures s[0] == t[0]
  {
    assert s[..k][0] == t[..k][0];
  }

  lemma DifferentFirst(s: seq<byte>, t: seq<byte>, signed: bool)
    requires s != [] && t != [] && s[0] != t[0]
    ensures LexicographicallyBefore(s, t, signed) <==> AsChar(s[0], signed) < AsChar(t[0], signed)
  {
    hide SmallerAt, AsChar;
    SmallerFirst(s, t, signed);
  }

  // ----- the order of floating point numbers

  /**
   The magnitude of a number of IEEE 754 in units of its smallest one, from its bits without the sign, the lowest m of
   which are the fraction: subnormal numbers are the fraction alone.
   */
  function Magnitude(bits: nat, m: nat): nat {
    var exponent, fraction := W.Shr(bits, m), W.Low(bits, m);
    if exponent == 0 then fraction else W.Shl(W.Pow2(m) + fraction, exponent - 1)
  }

  /** The value of a float with 23 and of a double with 52 bits of fraction, in these units. */
  function Value(memory: seq<byte>): int
    requires |memory| == 4 || |memory| == 8
  {
    var magnitude: int := Magnitude(Number(memory) % SignBit(|memory|), if |memory| == 4 then 23 else 52);
    if Number(memory) < SignBit(|memory|) then magnitude else -magnitude
  }

  function SignBit(size: nat): (n: nat)
    ensures n > 0
  {
    if size == 4 then 0x8000_0000 else 0x8000_0000_0000_0000
  }

  lemma MagnitudeStep(bits: nat, m: nat)
    ensures Magnitude(bits, m) < Magnitude(bits + 1, m)
  {
    hide *;
    var p, e, f := W.Pow2(m), W.Shr(bits, m), W.Low(bits, m);
    W.ShrSplit(bits, m);
    MagnitudeIs(bits, m);
    MagnitudeIs(bits + 1, m);
    One();
    if f + 1 < p {
      W.ShrIs(bits + 1, m, e, f + 1);
      if e > 0 {
        MoreTimes(p + f, p + f + 1, W.Pow2(e - 1));
      }
    } else {
      NextMultiple(e, p);
      W.ShrIs(bits + 1, m, e + 1, 0);
      if e > 0 {
        Doubles(e);
        MoreTimes(p + f, 2 * p, W.Pow2(e - 1));
        W.MulSwap(p, W.Pow2(e - 1));
      }
    }
  }

  lemma MagnitudeIs(bits: nat, m: nat)
    ensures W.Shr(bits, m) == 0 ==> Magnitude(bits, m) == W.Low(bits, m)
    ensures W.Shr(bits, m) > 0 ==> Magnitude(bits, m) == (W.Pow2(m) + W.Low(bits, m)) * W.Pow2(W.Shr(bits, m) - 1)
  {
    hide W.Shr, W.Low, W.Pow2;
  }

  lemma NextMultiple(e: nat, p: nat)
    ensures (e + 1) * p == e * p + p
  {
  }

  lemma MoreTimes(a: nat, b: nat, c: nat)
    requires a < b && c > 0
    ensures a * c < b * c
  {
  }

  lemma Doubles(e: nat)
    requires e > 0
    ensures W.Pow2(e) == 2 * W.Pow2(e - 1)
  {
  }

  lemma One()
    ensures W.Pow2(0) == 1
  {
  }

  lemma {:induction false} MagnitudesGrow(a: nat, b: nat, m: nat)
    requires a < b
    ensures Magnitude(a, m) < Magnitude(b, m)
  {
    hide Magnitude;
    MagnitudeStep(b - 1, m);
    if a < b - 1 {
      MagnitudesGrow(a, b - 1, m);
    }
  }

  /** Floats are ordered by their values, and so are doubles. */
  lemma RealsAreOrdered(a: seq<byte>, b: seq<byte>)
    requires |a| == |b| && (|a| == 4 || |a| == 8)
    ensures RealRank(a) < RealRank(b) <==> Value(a) < Value(b)
  {
    hide Magnitude, Number, RealRank, SignBit;
    var half, m := SignBit(|a|), if |a| == 4 then 23 else 52;
    SignAndMagnitude(a);
    SignAndMagnitude(b);
    var x, y := Number(a) % half, Number(b) % half;
    if x < y {
      MagnitudesGrow(x, y, m);
    } else if y < x {
      MagnitudesGrow(y, x, m);
    }
    ZeroMagnitude(m);
    if x > 0 {
      MagnitudesGrow(0, x, m);
    }
    if y > 0 {
      MagnitudesGrow(0, y, m);
    }
  }

  lemma ZeroMagnitude(m: nat)
    ensures Magnitude(0, m) == 0
  {
    hide *;
    W.ShrIs(0, m, 0, 0);
    MagnitudeIs(0, m);
  }

  lemma SignAndMagnitude(a: seq<byte>)
    requires |a| == 4 || |a| == 8
    ensures var half := SignBit(|a|);
            RealRank(a) == if Number(a) < half then Number(a) % half else -(Number(a) % half)
  {
    hide Number, Span;
    SpanValues();
    BelowSpan(a);
    var n, half := Number(a), SignBit(|a|);
    if n < half {
      W.QuotientIs(n / half, n % half, 0, n, half);
    } else {
      W.QuotientIs(n / half, n % half, 1, n - half, half);
    }
  }

  lemma {:induction false} BelowSpan(memory: seq<byte>)
    ensures Number(memory) < Span(|memory|)
  {
    if memory != [] {
      BelowSpan(memory[1..]);
    }
  }
}
