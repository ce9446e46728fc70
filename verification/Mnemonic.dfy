/** Numbers as words of syllables, and back. */
module Mnemonic {
  import opened Sequences
  import opened Wrappers

  const BASE: nat := 100
  const SPAN: nat := 0x1_0000_0000_0000_0000

  /** g_syllables. */
  function Syllable(i: nat): string {
    match i
    case 0 => "ba" case 1 => "bi" case 2 => "bu" case 3 => "be" case 4 => "bo"
    case 5 => "cha" case 6 => "chi" case 7 => "chu" case 8 => "che" case 9 => "cho"
    case 10 => "da" case 11 => "di" case 12 => "du" case 13 => "de" case 14 => "do"
    case 15 => "fa" case 16 => "fi" case 17 => "fu" case 18 => "fe" case 19 => "fo"
    case 20 => "ga" case 21 => "gi" case 22 => "gu" case 23 => "ge" case 24 => "go"
    case 25 => "ha" case 26 => "hi" case 27 => "hu" case 28 => "he" case 29 => "ho"
    case 30 => "ja" case 31 => "ji" case 32 => "ju" case 33 => "je" case 34 => "jo"
    case 35 => "ka" case 36 => "ki" case 37 => "ku" case 38 => "ke" case 39 => "ko"
    case 40 => "la" case 41 => "li" case 42 => "lu" case 43 => "le" case 44 => "lo"
    case 45 => "ma" case 46 => "mi" case 47 => "mu" case 48 => "me" case 49 => "mo"
    case 50 => "na" case 51 => "ni" case 52 => "nu" case 53 => "ne" case 54 => "no"
    case 55 => "pa" case 56 => "pi" case 57 => "pu" case 58 => "pe" case 59 => "po"
    case 60 => "ra" case 61 => "ri" case 62 => "ru" case 63 => "re" case 64 => "ro"
    case 65 => "sa" case 66 => "si" case 67 => "su" case 68 => "se" case 69 => "so"
    case 70 => "sha" case 71 => "shi" case 72 => "shu" case 73 => "she" case 74 => "sho"
    case 75 => "ta" case 76 => "ti" case 77 => "tu" case 78 => "te" case 79 => "to"
    case 80 => "tsa" case 81 => "tsi" case 82 => "tsu" case 83 => "tse" case 84 => "tso"
    case 85 => "wa" case 86 => "wi" case 87 => "wu" case 88 => "we" case 89 => "wo"
    case 90 => "ya" case 91 => "yi" case 92 => "yu" case 93 => "ye" case 94 => "yo"
    case 95 => "za" case 96 => "zi" case 97 => "zu" case 98 => "ze" case 99 => "zo"
    case _ => ""
  }

  predicate Valid(ds: seq<nat>) {
    forall i :: 0 <= i < |ds| ==> ds[i] < BASE
  }

  /** The syllables of these digits, one after the other. */
  function Word(ds: seq<nat>): string {
    if ds == [] then "" else Syllable(ds[0]) + Word(ds[1..])
  }

  /** The digits of a number, lowest first. */
  function Digits(n: nat): (ds: seq<nat>)
    ensures ds != []
  {
    [n % BASE] + if n / BASE == 0 then [] else Digits(n / BASE)
  }

  /** The number of these digits, lowest first. */
  function Value(ds: seq<nat>): nat {
    if ds == [] then 0 else ds[0] + BASE * Value(ds[1..])
  }

  /** The number of these digits, highest first. */
  function Fold(ds: seq<nat>): nat {
    if ds == [] then 0 else BASE * Fold(ds[..|ds| - 1]) + ds[|ds| - 1]
  }

  function Power(b: nat, e: nat): nat {
    if e == 0 then 1 else b * Power(b, e - 1)
  }

  // ----- the syllables are a prefix code

  function Onset(i: nat): string {
    match i
    case 0 => "b" case 1 => "ch" case 2 => "d" case 3 => "f" case 4 => "g"
    case 5 => "h" case 6 => "j" case 7 => "k" case 8 => "l" case 9 => "m"
    case 10 => "n" case 11 => "p" case 12 => "r" case 13 => "s" case 14 => "sh"
    case 15 => "t" case 16 => "ts" case 17 => "w" case 18 => "y" case _ => "z"
  }

  function Vowel(i: nat): char {
    match i
    case 0 => 'a' case 1 => 'i' case 2 => 'u' case 3 => 'e' case _ => 'o'
  }

  predicate IsVowel(c: char) {
    c == 'a' || c == 'i' || c == 'u' || c == 'e' || c == 'o'
  }

  lemma SyllableParts(i: nat)
    requires i < BASE
    ensures Syllable(i) == Onset(i / 5) + [Vowel(i % 5)]
  {
    hide Syllable, Onset, Vowel;
    SyllableIs(i / 5, i % 5);
  }

  lemma SyllableIs(row: nat, column: nat)
    requires row < 20 && column < 5
    ensures Syllable(5 * row + column) == Onset(row) + [Vowel(column)]
  {
    hide *;
    if row < 5 {
      FirstRows(row, column);
    } else if row < 10 {
      SecondRows(row, column);
    } else if row < 15 {
      ThirdRows(row, column);
    } else {
      LastRows(row, column);
    }
  }

  lemma FirstRows(row: nat, column: nat)
    requires 0 <= row < 5 && column < 5
    ensures Syllable(5 * row + column) == Onset(row) + [Vowel(column)]
  {
  }

  lemma SecondRows(row: nat, column: nat)
    requires 5 <= row < 10 && column < 5
    ensures Syllable(5 * row + column) == Onset(row) + [Vowel(column)]
  {
  }

  lemma ThirdRows(row: nat, column: nat)
    requires 10 <= row < 15 && column < 5
    ensures Syllable(5 * row + column) == Onset(row) + [Vowel(column)]
  {
  }

  lemma LastRows(row: nat, column: nat)
    requires 15 <= row < 20 && column < 5
    ensures Syllable(5 * row + column) == Onset(row) + [Vowel(column)]
  {
  }

  lemma OnsetsDiffer(i: nat, j: nat)
    requires i < 20 && j < 20 && Onset(i) == Onset(j)
    ensures i == j
  {
  }

  /** The rows of the table are in the order of the alphabet. */
  lemma OnsetsAreSorted(i: nat)
    requires i < 19
    ensures var a, b := Onset(i), Onset(i + 1);
            a[0] < b[0] || (a[0] == b[0] && |b| == 2 && (|a| == 1 || a[1] < b[1]))
  {
  }

  lemma NoVowelInOnset(i: nat, k: nat)
    requires k < |Onset(i)|
    ensures !IsVowel(Onset(i)[k])
  {
  }

  /** No syllable is the beginning of another: at most one begins a word. */
  lemma SyllablesArePrefixFree(i: nat, j: nat, m: string)
    requires i < BASE && j < BASE && Syllable(i) <= m && Syllable(j) <= m
    ensures i == j
  {
    SyllableParts(i);
    SyllableParts(j);
    var a, b := Onset(i / 5), Onset(j / 5);
    hide Syllable, Onset;
    if |a| < |b| {
      VowelAt(m, a, Vowel(i % 5), b);
      NoVowelInOnset(j / 5, |a|);
    } else if |b| < |a| {
      VowelAt(m, b, Vowel(j % 5), a);
      NoVowelInOnset(i / 5, |b|);
    } else {
      assert a == m[..|a|] == b;
      OnsetsDiffer(i / 5, j / 5);
      assert m[|a|] == Vowel(i % 5) == Vowel(j % 5);
    }
  }

  lemma VowelAt(m: string, a: string, v: char, b: string)
    requires a + [v] <= m && b <= m && |a| < |b|
    ensures b[|a|] == v
  {
    assert m[|a|] == (a + [v])[|a|] && m[|a|] == b[|a|];
  }

  lemma SyllableSizes(i: nat)
    requires i < BASE
    ensures 2 <= |Syllable(i)| <= 3
  {
  }

  // ----- splitting a word into syllables

  /** The first syllable from i on with which the word begins, or 100. */
  function Find(m: string, i: nat): (j: nat)
    requires i <= BASE
    ensures i <= j <= BASE
    decreases BASE - i
  {
    if i == BASE || Syllable(i) <= m then i else Find(m, i + 1)
  }

  lemma {:induction false} FindsFirst(m: string, i: nat)
    requires i <= BASE
    ensures Find(m, i) < BASE ==> Syllable(Find(m, i)) <= m
    ensures forall k :: i <= k < Find(m, i) ==> !(Syllable(k) <= m)
    decreases BASE - i
  {
    hide Syllable;
    if i < BASE && !(Syllable(i) <= m) {
      FindsFirst(m, i + 1);
    }
  }

  /** The syllables into which the decoder splits a word. */
  function Split(m: string): Option<seq<nat>>
    decreases |m|
  {
    var i := Find(m, 0);
    FindsFirst(m, 0);
    if m == "" then Some([])
    else if i == BASE || Syllable(i) == "" then None
    else
      match Split(m[|Syllable(i)|..])
      case Some(ds) => Some([i] + ds)
      case None => None
  }

  lemma SplitFirst(m: string, i: nat)
    requires i < BASE && Syllable(i) <= m && m != ""
    ensures Split(m) == match Split(m[|Syllable(i)|..]) case Some(ds) => Some([i] + ds) case None => None
  {
    FindsFirst(m, 0);
    var j := Find(m, 0);
    if j < BASE {
      SyllablesArePrefixFree(i, j, m);
    }
    SyllableSizes(i);
    hide Syllable;
  }

  /** Every word of syllables is split into just these. */
  lemma {:induction false} SplitsWords(ds: seq<nat>)
    requires Valid(ds)
    ensures Split(Word(ds)) == Some(ds)
  {
    hide Syllable;
    if ds == [] {
    } else {
      var d, rest := ds[0], Word(ds[1..]);
      assert Word(ds) == Syllable(d) + rest;
      SyllableSizes(d);
      assert Word(ds)[|Syllable(d)|..] == rest;
      SplitsWords(ds[1..]);
      SplitFirst(Word(ds), d);
      assert ds == [d] + ds[1..];
    }
  }

  /** What can be split is a word of syllables. */
  lemma {:induction false} SplitIsWord(m: string)
    ensures Split(m).Some? ==> Valid(Split(m).value) && m == Word(Split(m).value)
    decreases |m|
  {
    hide Syllable;
    if Split(m).Some? && m != "" {
      var i := Find(m, 0);
      FindsFirst(m, 0);
      var rest := m[|Syllable(i)|..];
      SplitIsWord(rest);
      assert Split(m).value[0] == i && Split(m).value[1..] == Split(rest).value;
      assert m == Syllable(i) + rest;
    }
  }

  // ----- methods

  /** The value of a 64-bit number. */
  function Wrapped(x: nat): (w: nat)
    ensures w < SPAN
  {
    x % SPAN
  }

  /** exp, on 64-bit numbers. */
  method Exp(number: nat, exponent: nat) returns (result: nat)
    requires number < SPAN
    ensures result == Wrapped(Power(number, exponent))
  {
    PowerIs(number, 0);
    PowerIs(number, 1);
    hide Power;
    if exponent == 0 {
      return 1;
    }
    result := number;
    hide Wrapped;
    for e := 1 to exponent
      invariant result == Wrapped(Power(number, e))
    {
      PowerIs(number, e + 1);
      ProductWraps(Power(number, e), number);
      result := Wrapped(result * number);
    }
  }

  lemma PowerIs(b: nat, e: nat)
    ensures Power(b, e) == if e == 0 then 1 else b * Power(b, e - 1)
  {
  }

  lemma {:induction false} AddMultiple(z: nat, k: nat)
    ensures Wrapped(z + k * SPAN) == Wrapped(z)
  {
    if k > 0 {
      AddMultiple(z, k - 1);
      assert z + k * SPAN == z + (k - 1) * SPAN + SPAN;
    }
  }

  lemma ProductWraps(x: nat, y: nat)
    ensures Wrapped(Wrapped(x) * y) == Wrapped(x * y) == Wrapped(y * x)
  {
    var q, r := x / SPAN, x % SPAN;
    assert x == q * SPAN + r;
    Distribute(q, SPAN, r, y);
    AddMultiple(r * y, q * y);
    hide SPAN;
  }

  lemma Distribute(q: nat, s: nat, r: nat, y: nat)
    ensures (q * s + r) * y == r * y + (q * y) * s
  {
  }

  /** exp(100, n) is 0, and then number_to_mnemonic divides by it, exactly from 32 syllables on. */
  lemma LimitVanishesFrom32(n: nat)
    ensures Wrapped(Power(BASE, n)) == 0 <==> n >= 32
  {
    LargePowers();
    if n >= 32 {
      StaysZero(32, n);
    } else if Wrapped(Power(BASE, n)) == 0 {
      StaysZero(n, 31);
    }
  }

  lemma {:induction false} StaysZero(m: nat, n: nat)
    requires m <= n && Wrapped(Power(BASE, m)) == 0
    ensures Wrapped(Power(BASE, n)) == 0
  {
    if m < n {
      StaysZero(m, n - 1);
      PowerIs(BASE, n);
      ProductWraps(Power(BASE, n - 1), BASE);
      hide Power;
    }
  }

  lemma {:induction false} PowersMultiply(m: nat, n: nat)
    ensures Power(BASE, m + n) == Power(BASE, m) * Power(BASE, n)
  {
    PowerIs(BASE, n);
    PowerIs(BASE, m + n);
    hide Power;
    if n > 0 {
      PowersMultiply(m, n - 1);
      Reassociate(Power(BASE, m), Power(BASE, n - 1));
    }
  }

  lemma Reassociate(a: nat, b: nat)
    ensures BASE * (a * b) == a * (BASE * b)
  {
  }

  lemma LargePowers()
    ensures Power(BASE, 9) == 1_000_000_000_000_000_000 && Power(BASE, 10) == 100_000_000_000_000_000_000
    ensures Wrapped(Power(BASE, 31)) != 0 && Wrapped(Power(BASE, 32)) == 0
  {
    assert Power(BASE, 9) == 1_000_000_000_000_000_000;
    PowerIs(BASE, 10);
    PowersMultiply(10, 10);
    PowersMultiply(20, 10);
    PowerIs(BASE, 31);
    PowerIs(BASE, 32);
    hide Power;
  }

  lemma RestIsSmaller(x: nat, y: nat)
    requires y > 0
    ensures x % y <= x && x % y < y
  {
    assert x % y < y;
    if x < y {
      assert x % y == x;
    }
  }

  /** number_to_mnemonic; nothing where it divides by zero. */
  method NumberToMnemonic(number: nat, maxSyllables: nat) returns (r: Option<string>)
    requires number < SPAN
    ensures r == if maxSyllables < 32 then Some(Word(Digits(Limited(number, maxSyllables)))) else None
  {
    LimitVanishesFrom32(maxSyllables);
    hide Syllable, Power, Wrapped, Word, Digits;
    var n: nat := number;
    if maxSyllables > 0 {
      var limit := Exp(BASE, maxSyllables);
      if limit == 0 {
        return None;
      }
      RestIsSmaller(n, limit);
      n := n % limit;
    }
    ghost var all := Word(Digits(n));
    FirstSyllable(n);
    var result := Syllable(n % BASE);
    n := n / BASE;
    while n != 0
      invariant result + (if n == 0 then "" else Word(Digits(n))) == all
    {
      FirstSyllable(n);
      result := result + Syllable(n % BASE);
      n := n / BASE;
    }
    assert result + "" == result;
    return Some(result);
  }

  lemma FirstSyllable(n: nat)
    ensures Word(Digits(n)) == Syllable(n % BASE) + if n / BASE == 0 then "" else Word(Digits(n / BASE))
  {
    hide Syllable;
    assert Digits(n)[1..] == if n / BASE == 0 then [] else Digits(n / BASE);
  }

  /** The number of which the digits are written: all of it, or its rest by a power of 100 that wraps around. */
  function Limited(number: nat, maxSyllables: nat): nat
    requires maxSyllables < 32
  {
    LimitVanishesFrom32(maxSyllables);
    if maxSyllables == 0 then number else number % Wrapped(Power(BASE, maxSyllables))
  }

  /** mnemonic_to_number: a number for exactly the words of syllables, the digits of which it takes as highest first. */
  method MnemonicToNumber(mnemonic: string) returns (r: Option<nat>)
    ensures r == match Split(mnemonic) case Some(ds) => Some(Wrapped(Fold(ds))) case None => None
  {
    hide Syllable, Split, Fold, Wrapped, SplitsAs, NoneUpTo;
    var rest := mnemonic;
    var result := 0;
    ghost var ds: seq<nat> := [];
    NothingSplit(mnemonic);
    while rest != ""
      invariant result == Wrapped(Fold(ds))
      invariant SplitsAs(mnemonic, ds, rest)
      decreases |rest|
    {
      var sizeBefore := |rest|;
      if sizeBefore < 2 {
        TooShort(mnemonic, ds, rest);
        return None;
      }
      ghost var before := rest;
      NoneYet(rest);
      for i := 0 to BASE
        invariant rest == before && NoneUpTo(rest, i)
      {
        SyllableSizes(i);
        var size := |Syllable(i)|;
        NoneOrOne(rest, i);
        if |rest| >= size && rest[..size] == Syllable(i) {
          OneMoreSyllable(mnemonic, ds, rest, i);
          FoldMore(ds, i);
          result := Wrapped(BASE * result + i);
          rest := rest[size..];
          ds := ds + [i];
          break;
        }
      }
      if |rest| == sizeBefore {
        NoSyllable(mnemonic, ds, rest);
        return None;
      }
    }
    AllSplit(mnemonic, ds);
    return Some(result);
  }

  /** The word is split into ds and then into what the rest is split into. */
  ghost predicate SplitsAs(m: string, ds: seq<nat>, rest: string) {
    Split(m) == match Split(rest) case Some(more) => Some(ds + more) case None => None
  }

  /** None of the first n syllables begins the word. */
  ghost predicate NoneUpTo(m: string, n: nat)
    requires n <= BASE
  {
    forall k :: 0 <= k < n ==> !(Syllable(k) <= m)
  }

  lemma NothingSplit(m: string)
    ensures SplitsAs(m, [], m) && Wrapped(Fold([])) == 0
  {
    match Split(m)
    case Some(ds) => assert [] + ds == ds;
    case None =>
  }

  lemma NoneYet(m: string)
    ensures NoneUpTo(m, 0)
  {
  }

  lemma AllSplit(m: string, ds: seq<nat>)
    requires SplitsAs(m, ds, "")
    ensures Split(m) == Some(ds)
  {
    assert Split("") == Some([]) && ds + [] == ds;
  }

  lemma NoneOrOne(m: string, n: nat)
    requires n < BASE && NoneUpTo(m, n)
    ensures NoneUpTo(m, n + 1) <==> !(|m| >= |Syllable(n)| && m[..|Syllable(n)|] == Syllable(n))
  {
  }

  lemma TooShort(m: string, ds: seq<nat>, rest: string)
    requires SplitsAs(m, ds, rest) && 0 < |rest| < 2
    ensures Split(m) == None
  {
    FindsFirst(rest, 0);
    var j := Find(rest, 0);
    if j < BASE {
      SyllableSizes(j);
    }
    hide Syllable;
  }

  lemma NoSyllable(m: string, ds: seq<nat>, rest: string)
    requires SplitsAs(m, ds, rest) && rest != "" && NoneUpTo(rest, BASE)
    ensures Split(m) == None
  {
    hide Syllable;
    FindsFirst(rest, 0);
  }

  lemma OneMoreSyllable(m: string, ds: seq<nat>, rest: string, i: nat)
    requires SplitsAs(m, ds, rest) && i < BASE && Syllable(i) <= rest && rest != ""
    ensures SplitsAs(m, ds + [i], rest[|Syllable(i)|..])
  {
    hide Split, Syllable;
    SplitFirst(rest, i);
    match Split(rest[|Syllable(i)|..])
    case Some(more) => assert ds + [i] + more == ds + ([i] + more);
    case None =>
  }

  lemma FoldMore(ds: seq<nat>, d: nat)
    ensures Wrapped(Fold(ds + [d])) == Wrapped(BASE * Wrapped(Fold(ds)) + d)
  {
    assert (ds + [d])[..|ds|] == ds;
    WrapsInside(Fold(ds), d);
  }

  lemma WrapsInside(x: nat, d: nat)
    ensures Wrapped(BASE * x + d) == Wrapped(BASE * Wrapped(x) + d)
  {
    var q, r := x / SPAN, x % SPAN;
    assert x == q * SPAN + r;
    AddMultiple(BASE * r + d, BASE * q);
  }

  // ----- the round trip

  lemma ReversedByLast(ds: seq<nat>)
    requires ds != []
    ensures Reversed(ds) == [ds[|ds| - 1]] + Reversed(ds[..|ds| - 1])
  {
    hide Reversed;
    var front, last := ds[..|ds| - 1], ds[|ds| - 1];
    assert ds == front + [last];
    ReversedOfAppend(front, last);
  }

  lemma {:induction false} FoldIsValueOfReversed(ds: seq<nat>)
    ensures Fold(ds) == Value(Reversed(ds))
  {
    if ds != [] {
      FoldIsValueOfReversed(ds[..|ds| - 1]);
      ReversedByLast(ds);
      assert Reversed(ds)[1..] == Reversed(ds[..|ds| - 1]);
    }
  }

  lemma {:induction false} DigitsAreOf(n: nat)
    ensures Valid(Digits(n)) && Value(Digits(n)) == n
  {
    if n / BASE != 0 {
      DigitsAreOf(n / BASE);
      assert Digits(n)[1..] == Digits(n / BASE);
    } else {
      assert Digits(n)[1..] == [];
    }
  }

  lemma {:induction false} ValueDetermines(a: seq<nat>, b: seq<nat>)
    requires Valid(a) && Valid(b) && |a| == |b| && Value(a) == Value(b)
    ensures a == b
  {
    if a != [] {
      assert a[0] == Value(a) % BASE == b[0];
      ValueDetermines(a[1..], b[1..]);
      assert a == [a[0]] + a[1..] && b == [b[0]] + b[1..];
    }
  }

  function Sum(ds: seq<nat>): nat {
    if ds == [] then 0 else ds[0] + Sum(ds[1..])
  }

  lemma {:induction false} SumOfReversed(ds: seq<nat>)
    ensures Sum(Reversed(ds)) == Sum(ds)
  {
    if ds != [] {
      SumOfReversed(ds[1..]);
      SumOfLast(Reversed(ds[1..]), ds[0]);
    }
  }

  lemma {:induction false} SumOfLast(ds: seq<nat>, d: nat)
    ensures Sum(ds + [d]) == Sum(ds) + d
  {
    if ds == [] {
      assert (ds + [d])[1..] == [];
    } else {
      assert (ds + [d])[1..] == ds[1..] + [d];
      SumOfLast(ds[1..], d);
    }
  }

  lemma CastOut(d: nat, x: nat, y: nat)
    requires x % 99 == y % 99
    ensures (d + BASE * x) % 99 == (d + y) % 99
  {
    var a, b, r := x / 99, y / 99, x % 99;
    assert x == 99 * a + r && y == 99 * b + r;
    assert d + BASE * x == 99 * (x + a - b) + (d + y);
  }

  /** Casting out ninety-nines. */
  lemma {:induction false} ValueIsSum(ds: seq<nat>)
    ensures Value(ds) % 99 == Sum(ds) % 99
  {
    if ds != [] {
      ValueIsSum(ds[1..]);
      CastOut(ds[0], Value(ds[1..]), Sum(ds[1..]));
    }
  }

  lemma {:induction false} ValueBound(ds: seq<nat>)
    requires Valid(ds)
    ensures Value(ds) < Power(BASE, |ds|)
  {
    if ds != [] {
      ValueBound(ds[1..]);
      PowerIs(BASE, |ds|);
      hide Power;
    } else {
      PowerIs(BASE, 0);
    }
  }

  lemma {:induction false} FewDigits(n: nat, k: nat)
    requires k > 0 && n < Power(BASE, k)
    ensures |Digits(n)| <= k
  {
    PowerIs(BASE, k);
    PowerIs(BASE, k - 1);
    hide Power;
    if k > 1 && n / BASE != 0 {
      FewDigits(n / BASE, k - 1);
    }
  }

  lemma {:induction false} PowersGrow(m: nat, n: nat)
    requires m <= n
    ensures 0 < Power(BASE, m) <= Power(BASE, n)
  {
    PowerIs(BASE, n);
    hide Power;
    if m < n {
      PowersGrow(m, n - 1);
    } else if n > 0 {
      PowersGrow(n - 1, n - 1);
    }
  }

  /** The limit is the power of 100 for up to 9 syllables, and wraps around from 10 on. */
  lemma LimitIsExactUpTo9(m: nat)
    ensures Wrapped(Power(BASE, m)) == Power(BASE, m) <==> m <= 9
  {
    LargePowers();
    hide Power;
    if m <= 9 {
      PowersGrow(m, 9);
    } else {
      PowersGrow(10, m);
    }
  }

  /** A word has no more syllables than asked for. */
  lemma LimitIsKept(n: nat, m: nat)
    requires n < SPAN && 0 < m < 32
    ensures |Digits(Limited(n, m))| <= m
  {
    LimitVanishesFrom32(m);
    LimitIsExactUpTo9(m);
    LargePowers();
    hide Power, Digits, Wrapped;
    RestIsSmaller(n, Wrapped(Power(BASE, m)));
    if m <= 9 {
      FewDigits(Limited(n, m), m);
    } else {
      FewDigits(Limited(n, m), 10);
    }
  }

  /** Decoding what was encoded gives the number back exactly when its digits to the base 100 are a palindrome. */
  lemma RoundTripsExactlyPalindromes(n: nat)
    requires n < SPAN
    ensures Split(Word(Digits(n))) == Some(Digits(n))
    ensures Wrapped(Fold(Digits(n))) == n <==> Reversed(Digits(n)) == Digits(n)
  {
    var ds := Digits(n);
    hide Digits, Value, Fold, Reversed, Split, Word, Wrapped;
    DigitsAreOf(n);
    SplitsWords(ds);
    FoldIsValueOfReversed(ds);
    ReversedIsValid(ds);
    if Wrapped(Fold(ds)) == n {
      SameRest(ds);
      FoldIsSmall(n);
      NoMultipleInReach(n, Fold(ds));
      ValueDetermines(Reversed(ds), ds);
    } else if Reversed(ds) == ds {
      SmallIsNotWrapped(n);
    }
  }

  lemma SmallIsNotWrapped(n: nat)
    requires n < SPAN
    ensures Wrapped(n) == n
  {
  }

  /** A number and its reversal are the same modulo 99. */
  lemma SameRest(ds: seq<nat>)
    ensures Fold(ds) % 99 == Value(ds) % 99
  {
    hide *;
    FoldIsValueOfReversed(ds);
    ValueIsSum(ds);
    ValueIsSum(Reversed(ds));
    SumOfReversed(ds);
  }

  lemma FoldIsSmall(n: nat)
    requires n < SPAN
    ensures Fold(Digits(n)) < 6 * SPAN
  {
    var ds := Digits(n);
    LargePowers();
    hide Digits, Power, Fold, Reversed, Value, Valid;
    DigitsAreOf(n);
    FewDigits(n, 10);
    FoldIsValueOfReversed(ds);
    ReversedIsValid(ds);
    ValueBound(Reversed(ds));
    PowersGrow(|ds|, 10);
  }

  lemma {:induction false} ReversedIsValid(ds: seq<nat>)
    requires Valid(ds)
    ensures Valid(Reversed<nat>(ds))
  {
    forall i | 0 <= i < |ds| ensures Reversed<nat>(ds)[i] < BASE {
      ReversedAt<nat>(ds, i);
    }
  }

  /** No multiple of 2^64 that could lie between a number and its reversal is a multiple of 99. */
  lemma NoMultipleInReach(n: nat, m: nat)
    requires n < SPAN && m < 6 * SPAN && Wrapped(m) == n && m % 99 == n % 99
    ensures m == n
  {
    var t := m / SPAN;
    assert m == n + t * SPAN && t < 6;
    assert t == 0 || t == 1 || t == 2 || t == 3 || t == 4 || t == 5;
  }

  /** The smallest number that is not read back: 100 becomes 1. */
  lemma HundredIsReadAsOne()
    ensures Digits(100) == [0, 1] && Wrapped(Fold(Digits(100))) == 1
  {
    assert Digits(100) == [0] + Digits(1);
    assert [0, 1][..1] == [0] && [0][..0] == [];
  }
}
