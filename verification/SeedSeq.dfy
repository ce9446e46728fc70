/**
 seed_seq_fe<count, uint32_t>: a fixed-size entropy store, seeded in place from any number of
 words, and read back by replaying the mixing backwards.
 */
module SeedSequence {
  import opened Words
  import opened Mixing
  import opened Rounds

  /** Square and multiply. */
  method FastExp(x: word, power: word) returns (result: word)
    ensures result == Pow(x, power)
  {
    result := 1;
    var multiplier, p := x, power;
    assert Mul(1, Pow(x, power)) == Pow(x, power);
    while p != 0
      invariant Mul(result, Pow(multiplier, p)) == Pow(x, power)
    {
      PowOfSquare(multiplier, p / 2);
      if p % 2 == 1 {
        MulAssoc(result, multiplier, Pow(multiplier, p - 1));
        result := Mul(result, multiplier);
      }
      p := p / 2;
      multiplier := Mul(multiplier, multiplier);
    }
  }

  /** fast_exp(x, -1) is the inverse of an odd word, and there is only one. */
  method Inverse(x: word, ghost known: word) returns (inv: word)
    requires x % 2 == 1 && Mul(x, known) == 1
    ensures inv == known
  {
    inv := FastExp(x, MINUS_ONE);
    PowMinusOneInverts(x);
    OddFactorCancels(inv, known, x);
  }

  class SeedSeq {
    const mixer: array<word>

    constructor (count: nat, input: array<word>)
      ensures fresh(mixer) && mixer.Length == count
      ensures mixer[..] == Seeded(count, input[..])
    {
      mixer := new word[count];
      new;
      Seed(input);
    }

    /** One hash call: the k-th of its round when hashConst is the k-th constant. */
    static method HashCall(value: word, hashConst: word, ghost k: nat) returns (hashed: word, newConst: word)
      requires hashConst == HashConst(k)
      ensures hashed == Hash(value, k) && newConst == HashConst(k + 1)
    {
      var v := XorWord(value, hashConst);
      newConst := Mul(hashConst, MULT_A);
      v := Mul(v, newConst);
      hashed := XorHigh(v);
    }

    /** Reads all of the input, which may be the store itself, and overwrites the store. */
    method MixEntropy(input: array<word>)
      modifies mixer
      ensures mixer[..] == Round(mixer.Length, old(input[..]))
    {
      hide HashConst, Hash, Row;
      var n := mixer.Length;
      ghost var words := input[..];
      var current, hashConst := AbsorbInput(mixer, input);
      for src := 0 to n
        invariant input[current..] == words[current..]
        invariant mixer[..] == Cross(Absorb(n, words), src)
        invariant hashConst == HashConst(RowBase(n, src))
      {
        hashConst := MixRow(mixer, src, hashConst);
      }
      assert input[current..] == if |words| <= n then [] else words[n..];
      if current != input.Length {
        PourRest(mixer, input, current, hashConst, RowBase(n, n));
      }
    }

    /** The first loop. */
    static method AbsorbInput(mixer: array<word>, input: array<word>) returns (current: nat, hashConst: word)
      modifies mixer
      ensures mixer[..] == Absorb(mixer.Length, old(input[..]))
      ensures current == if mixer.Length <= input.Length then mixer.Length else input.Length
      ensures input[current..] == old(input[current..])
      ensures hashConst == HashConst(mixer.Length)
    {
      var n := mixer.Length;
      ghost var words := input[..];
      hashConst := INIT_A;
      current := 0;
      for i := 0 to n
        invariant current == if i <= input.Length then i else input.Length
        invariant forall j :: current <= j < input.Length ==> input[j] == words[j]
        invariant forall j :: 0 <= j < i ==> mixer[j] == Hash(InputAt(words, j), j)
        invariant hashConst == HashConst(i)
      {
        var h;
        if current != input.Length {
          h, hashConst := HashCall(input[current], hashConst, i);
          current := current + 1;
        } else {
          h, hashConst := HashCall(0, hashConst, i);
        }
        mixer[i] := h;
      }
      assert mixer[..] == Absorb(n, words);
    }

    /** The inner part of the second loop. */
    static method MixRow(mixer: array<word>, src: nat, hashConst: word) returns (newConst: word)
      requires src < mixer.Length && hashConst == HashConst(RowBase(mixer.Length, src))
      modifies mixer
      ensures mixer[..] == Row(old(mixer[..]), src, mixer.Length)
      ensures newConst == HashConst(RowBase(mixer.Length, src + 1))
    {
      hide HashConst, Mix, Hash;
      newConst := hashConst;
      ghost var k := RowBase(mixer.Length, src);
      for dest := 0 to mixer.Length
        invariant mixer[..] == Row(old(mixer[..]), src, dest)
        invariant k == RowCalls(mixer.Length, src, dest)
        invariant newConst == HashConst(k)
      {
        newConst := MixInto(mixer, src, dest, newConst, k);
        k := if src == dest then k else k + 1;
      }
    }

    static method MixInto(mixer: array<word>, src: nat, dest: nat, hashConst: word, ghost k: nat)
      returns (newConst: word)
      requires src < mixer.Length && dest < mixer.Length && hashConst == HashConst(k)
      modifies mixer
      ensures mixer[..] == CrossStep(old(mixer[..]), src, dest, k)
      ensures newConst == HashConst(if src == dest then k else k + 1)
    {
      newConst := hashConst;
      if src != dest {
        var h;
        h, newConst := HashCall(mixer[src], hashConst, k);
        mixer[dest] := Mix(mixer[dest], h);
      }
    }

    /** The third loop. */
    static method PourRest(mixer: array<word>, input: array<word>, start: nat, hashConst: word, ghost k: nat)
      requires input != mixer && start <= input.Length && hashConst == HashConst(k)
      modifies mixer
      ensures mixer[..] == Pour(old(mixer[..]), input[start..], k)
    {
      hide Pour, PourStep, HashConst;
      var current, running := start, hashConst;
      ghost var at: nat := k;
      while current != input.Length
        invariant start <= current <= input.Length
        invariant Pour(mixer[..], input[current..], at) == Pour(old(mixer[..]), input[start..], k)
        invariant running == HashConst(at)
        decreases input.Length - current
      {
        PourFirst(mixer[..], input[current..], at);
        running := PourWord(mixer, input[current], running, at);
        assert input[current..][1..] == input[current + 1..];
        current := current + 1;
        at := at + mixer.Length;
      }
      PourNothing(mixer[..], input[current..], at);
    }

    static method PourWord(mixer: array<word>, w: word, hashConst: word, ghost k: nat) returns (newConst: word)
      requires hashConst == HashConst(k)
      modifies mixer
      ensures mixer[..] == PourStep(old(mixer[..]), w, mixer.Length, k)
      ensures newConst == HashConst(k + mixer.Length)
    {
      hide Mix, Hash, HashConst;
      newConst := hashConst;
      ghost var at: nat := k;
      for dest := 0 to mixer.Length
        invariant mixer[..] == PourStep(old(mixer[..]), w, dest, k)
        invariant at == k + dest
        invariant newConst == HashConst(at)
      {
        newConst := PourInto(mixer, w, dest, newConst, at);
        at := at + 1;
      }
    }

    static method PourInto(mixer: array<word>, w: word, dest: nat, hashConst: word, ghost k: nat)
      returns (newConst: word)
      requires dest < mixer.Length && hashConst == HashConst(k)
      modifies mixer
      ensures mixer[..] == old(mixer[..])[dest := Mix(old(mixer[dest]), Hash(w, k))]
      ensures newConst == HashConst(k + 1)
    {
      var h;
      h, newConst := HashCall(w, hashConst, k);
      mixer[dest] := Mix(mixer[dest], h);
    }

    method Seed(input: array<word>)
      modifies mixer
      ensures mixer[..] == Seeded(mixer.Length, old(input[..]))
    {
      MixEntropy(input);
      for i := 1 to MixRounds(mixer.Length)
        invariant Stirred(mixer[..], MixRounds(mixer.Length) - i) == Seeded(mixer.Length, old(input[..]))
      {
        Stir();
      }
    }

    /** Feeds the store to itself. */
    method Stir()
      modifies mixer
      ensures mixer[..] == Round(mixer.Length, old(mixer[..]))
    {
      MixEntropy(mixer);
    }

    /** Replays the mixing backwards on a copy of the store. */
    method Param() returns (dest: array<word>)
      ensures fresh(dest) && dest[..] == Recovered(mixer[..])
      ensures forall input :: |input| == mixer.Length && mixer[..] == Seeded(mixer.Length, input) ==> dest[..] == input
    {
      var n := mixer.Length;
      var invA := Inverse(MULT_A, INV_A);
      var mixInvL := Inverse(MIX_MULT_L, MIX_INV_L);
      dest := new word[n];
      forall i | 0 <= i < n {
        dest[i] := mixer[i];
      }
      assert dest[..] == mixer[..];
      for round := 0 to MixRounds(n)
        invariant Unstirred(dest[..], MixRounds(n) - round) == Recovered(mixer[..])
      {
        Backtrack(dest, invA, mixInvL);
      }
      forall input | |input| == n && mixer[..] == Seeded(n, input) ensures dest[..] == input {
        ParamUndoesSeed(input);
      }
    }

    /** One round undone in place: the hash constant starts at its final value and runs backwards. */
    static method Backtrack(copy: array<word>, invA: word, mixInvL: word)
      requires invA == INV_A && mixInvL == MIX_INV_L
      modifies copy
      ensures copy[..] == Unround(old(copy[..]))
    {
      var n := copy.Length;
      ghost var start := copy[..];
      var hashConst := LastConst(n);
      for src := n downto 0
        invariant Uncross(copy[..], src) == Uncross(start, n)
        invariant hashConst == HashConst(RowBase(n, src))
      {
        UncrossFirst(copy[..], src);
        hashConst := UnmixRow(copy, src, hashConst, invA, mixInvL);
      }
      UnhashAll(copy, hashConst, invA);
    }

    /** The hash constant after the n * n hash calls of a round. */
    static method LastConst(n: nat) returns (hashConst: word)
      ensures hashConst == HashConst(RowBase(n, n))
    {
      var power := FastExp(MULT_A, n * n % WORD);
      hashConst := Mul(INIT_A, power);
      PowWraps(MULT_A, n * n);
      RowBaseIsSquare(n);
      HashConstIs(n * n);
    }

    static method UnmixRow(copy: array<word>, src: nat, hashConst: word, invA: word, mixInvL: word)
      returns (newConst: word)
      requires src < copy.Length && hashConst == HashConst(RowBase(copy.Length, src + 1))
      requires invA == INV_A && mixInvL == MIX_INV_L
      modifies copy
      ensures copy[..] == Unrow(old(copy[..]), src, copy.Length)
      ensures newConst == HashConst(RowBase(copy.Length, src))
    {
      hide HashConst, Mix, Unmix, Hash;
      var n := copy.Length;
      ghost var before := copy[..];
      newConst := hashConst;
      ghost var k := RowBase(n, src + 1);
      for dest := n downto 0
        invariant Unrow(copy[..], src, dest) == Unrow(before, src, n)
        invariant k == RowCalls(n, src, dest)
        invariant newConst == HashConst(k)
      {
        k := if src == dest then k else k - 1;
        ghost var now := copy[..];
        UnrowFirst(now, src, dest, k);
        newConst := UnmixFrom(copy, src, dest, newConst, invA, mixInvL, k);
      }
    }

    static method UnmixFrom(copy: array<word>, src: nat, dest: nat, hashConst: word, invA: word, mixInvL: word,
                            ghost k: nat)
      returns (newConst: word)
      requires src < copy.Length && dest < copy.Length
      requires hashConst == HashConst(if src == dest then k else k + 1)
      requires invA == INV_A && mixInvL == MIX_INV_L
      modifies copy
      ensures copy[..] == UncrossStep(old(copy[..]), src, dest, k) && newConst == HashConst(k)
    {
      newConst := hashConst;
      if src != dest {
        var revhashed := copy[src];
        PreviousConst(k);
        newConst := Mul(hashConst, invA);
        revhashed := XorWord(revhashed, newConst);
        revhashed := Mul(revhashed, hashConst);
        revhashed := XorHigh(revhashed);
        var unmixed := copy[dest];
        unmixed := XorHigh(unmixed);
        unmixed := Add(unmixed, Mul(MIX_MULT_R, revhashed));
        unmixed := Mul(unmixed, mixInvL);
        copy[dest] := unmixed;
      }
    }

    static method UnhashAll(copy: array<word>, lastConst: word, invA: word)
      requires lastConst == HashConst(copy.Length) && invA == INV_A
      modifies copy
      ensures copy[..] == Unabsorb(old(copy[..]))
    {
      ghost var hashed := copy[..];
      var hashConst := lastConst;
      for i := copy.Length downto 0
        invariant forall j :: 0 <= j < i ==> copy[j] == hashed[j]
        invariant forall j :: i <= j < copy.Length ==> copy[j] == Unhash(hashed[j], j)
        invariant hashConst == HashConst(i)
      {
        var unhashed := XorHigh(copy[i]);
        var inv := FastExp(hashConst, MINUS_ONE);
        unhashed := Mul(unhashed, inv);
        PreviousConst(i);
        hashConst := Mul(hashConst, invA);
        unhashed := XorWord(unhashed, hashConst);
        copy[i] := unhashed;
      }
      assert copy[..] == Unabsorb(hashed);
    }
  }

  lemma {:induction false} HashConstIs(k: nat)
    ensures HashConst(k) == Mul(INIT_A, Pow(MULT_A, k))
  {
    if k > 0 {
      HashConstIs(k - 1);
      MulAssoc(INIT_A, Pow(MULT_A, k - 1), MULT_A);
      MulComm(Pow(MULT_A, k - 1), MULT_A);
    }
  }

  lemma PreviousConst(k: nat)
    ensures Mul(HashConst(k + 1), INV_A) == HashConst(k)
  {
    InverseConstants();
    hide Mul;
    MulCancel(HashConst(k), MULT_A, INV_A);
  }
}
