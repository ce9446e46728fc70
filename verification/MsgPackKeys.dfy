/** Exactly the values in which no two keys of a map are numerically equal survive writing and reading. */
module MsgPackKeys {
  import opened MsgPack
  import opened MsgPackOrder

  /** The key of some entry means this. */
  predicate HasMeaning(es: seq<Entry>, key: Meaning) {
    es != [] && (MeaningOf(es[0].key) == key || HasMeaning(es[1..], key))
  }

  /** In no map inside the value do two keys mean the same. */
  predicate KeysDistinct(v: Pack)
    decreases v, 0
  {
    match v
    case Array(es) => AllDistinct(es)
    case Map(es) => EntriesDistinct(es)
    case _ => true
  }

  predicate AllDistinct(es: seq<Pack>)
    decreases es, 1
  {
    es != [] ==> KeysDistinct(es[0]) && AllDistinct(es[1..])
  }

  predicate EntriesDistinct(es: seq<Entry>)
    decreases es, 1
  {
    es != [] ==> EntryDistinct(es[0]) && !HasMeaning(es[1..], MeaningOf(es[0].key)) && EntriesDistinct(es[1..])
  }

  predicate EntryDistinct(e: Entry)
    decreases e, 1
  {
    KeysDistinct(e.key) && KeysDistinct(e.value)
  }

  /** No key of es is a key of front. */
  predicate NewKeys(front: seq<Entry>, es: seq<Entry>) {
    es != [] ==> !HasMeaning(front, MeaningOf(es[0].key)) && NewKeys(front, es[1..])
  }

  // ----- counting entries

  /** The number of entries of all maps inside the value. */
  function Count(v: Pack): nat
    decreases v, 0
  {
    match v
    case Array(es) => CountOfAll(es)
    case Map(es) => CountOfEntries(es)
    case _ => 0
  }

  function CountOfAll(es: seq<Pack>): nat
    decreases es, 1
  {
    if es == [] then 0 else Count(es[0]) + CountOfAll(es[1..])
  }

  function CountOfEntries(es: seq<Entry>): nat
    decreases es, 1
  {
    if es == [] then 0 else CountOfEntry(es[0]) + CountOfEntries(es[1..])
  }

  function CountOfEntry(e: Entry): nat
    decreases e, 1
  {
    1 + Count(e.key) + Count(e.value)
  }

  // ----- one more entry

  lemma {:induction false} OneMoreEntry(es: seq<Entry>, e: Entry, key: Meaning)
    ensures CountOfEntries(Inserted(es, e)) == CountOfEntries(es) + CountOfEntry(e)
    ensures MeaningOfEntries(Inserted(es, e)) == MeaningOfEntries(es) + multiset{MeaningOfEntry(e)}
    ensures HasMeaning(Inserted(es, e), key) <==> HasMeaning(es, key) || MeaningOf(e.key) == key
  {
    hide Count, MeaningOf, MeaningOfEntry, CountOfEntry, Compare;
    if es == [] || Compare(e.key, es[0].key).Before? {
      assert ([e] + es)[1..] == es;
    } else {
      assert ([es[0]] + Inserted(es[1..], e))[1..] == Inserted(es[1..], e);
      OneMoreEntry(es[1..], e, key);
    }
  }

  lemma {:induction false} NewKeysBesides(front: seq<Entry>, e: Entry, es: seq<Entry>)
    ensures NewKeys(Inserted(front, e), es) <==> NewKeys(front, es) && !HasMeaning(es, MeaningOf(e.key))
  {
    hide MeaningOf, Inserted;
    if es != [] {
      OneMoreEntry(front, e, MeaningOf(es[0].key));
      NewKeysBesides(front, e, es[1..]);
    }
  }

  /** Among values that were read back, a key is dropped exactly if one with its meaning is there already. */
  lemma {:induction false} HasKeyIsHasMeaning(es: seq<Entry>, key: Pack)
    requires EntriesNormal(es) && Normal(key)
    ensures HasKey(es, key) <==> HasMeaning(es, MeaningOf(key))
  {
    hide Compare, MeaningOf;
    if es != [] {
      SameIsSameMeaning(es[0].key, key);
      HasKeyIsHasMeaning(es[1..], key);
    }
  }

  // ----- what reading back keeps

  /** No entry is lost exactly when all keys are distinct, and then the meaning is kept. */
  ghost predicate KeptExactly(read: Pack, v: Pack) {
    && Count(read) <= Count(v)
    && (Count(read) == Count(v) <==> KeysDistinct(v))
    && (KeysDistinct(v) ==> MeaningOf(read) == MeaningOf(v))
  }

  lemma {:induction false} ReadBackKeeps(v: Pack)
    ensures KeptExactly(ReadBack(v), v)
    decreases v, 0
  {
    match v
    case Array(es) => AllKept(es);
    case Map(es) => MapKept(es);
    case _ =>
  }

  lemma {:induction false} MapKept(es: seq<Entry>)
    ensures KeptExactly(Map(ReadBackEntries([], es)), Map(es))
    decreases es, 2
  {
    EntriesKept([], es);
    NothingIsNew(es);
    hide MeaningOfEntries, EntriesDistinct, ReadBackEntries, NewKeys;
    assert multiset{} + MeaningOfEntries(es) == MeaningOfEntries(es);
  }

  lemma {:induction false} NothingIsNew(es: seq<Entry>)
    ensures NewKeys([], es)
  {
    if es != [] {
      NothingIsNew(es[1..]);
    }
  }

  lemma {:induction false} AllKept(es: seq<Pack>)
    ensures CountOfAll(ReadBackAll(es)) <= CountOfAll(es)
    ensures CountOfAll(ReadBackAll(es)) == CountOfAll(es) <==> AllDistinct(es)
    ensures AllDistinct(es) ==> MeaningOfAll(ReadBackAll(es)) == MeaningOfAll(es)
    decreases es, 1
  {
    if es != [] {
      ReadBackKeeps(es[0]);
      AllKept(es[1..]);
      hide ReadBack, Count, MeaningOf, KeysDistinct;
      assert ReadBackAll(es)[1..] == ReadBackAll(es[1..]);
    }
  }

  lemma {:induction false} EntriesKept(front: seq<Entry>, es: seq<Entry>)
    requires Sorted(front) && EntriesNormal(front)
    ensures CountOfEntries(ReadBackEntries(front, es)) <= CountOfEntries(front) + CountOfEntries(es)
    ensures CountOfEntries(ReadBackEntries(front, es)) == CountOfEntries(front) + CountOfEntries(es)
            <==> EntriesDistinct(es) && NewKeys(front, es)
    ensures EntriesDistinct(es) && NewKeys(front, es)
            ==> MeaningOfEntries(ReadBackEntries(front, es)) == MeaningOfEntries(front) + MeaningOfEntries(es)
    decreases es, 1
  {
    hide Sorted, Inserted, HasKey, CountOfEntry, MeaningOfEntry, MeaningOf, EntryDistinct, EntriesNormal, ReadBackEntry,
         EntryNormal, Normal;
    if es != [] {
      var read := ReadBackEntry(es[0]);
      EntryKept(es[0]);
      ReadBackEntryIsNormal(es[0]);
      EmplacedIsNormal(front, read);
      EntriesKept(Emplaced(front, read), es[1..]);
      NormalEntry(read);
      HasKeyIsHasMeaning(front, read.key);
      OneMoreEntry(front, read, MeaningOf(read.key));
      NewKeysBesides(front, read, es[1..]);
    }
  }

  /** An entry whose key is new is put into the map, and the keys behind it stay new. */
  lemma {:induction false} NewEntryIsInserted(front: seq<Entry>, es: seq<Entry>)
    requires Sorted(front) && EntriesNormal(front) && es != [] && EntriesDistinct(es) && NewKeys(front, es)
    ensures var next := Inserted(front, ReadBackEntry(es[0]));
            && Emplaced(front, ReadBackEntry(es[0])) == next
            && Sorted(next) && EntriesNormal(next) && EntriesDistinct(es[1..]) && NewKeys(next, es[1..])
  {
    hide Sorted, Inserted, HasKey, CountOfEntry, MeaningOfEntry, MeaningOf, EntryDistinct, EntriesNormal, ReadBackEntry,
         EntryNormal, Normal;
    var read := ReadBackEntry(es[0]);
    EntryKept(es[0]);
    ReadBackEntryIsNormal(es[0]);
    EmplacedIsNormal(front, read);
    NormalEntry(read);
    HasKeyIsHasMeaning(front, read.key);
    NewKeysBesides(front, read, es[1..]);
  }

  lemma NormalEntry(e: Entry)
    requires EntryNormal(e)
    ensures Normal(e.key)
  {
  }

  lemma {:induction false} EntryKept(e: Entry)
    ensures 0 < CountOfEntry(ReadBackEntry(e)) <= CountOfEntry(e)
    ensures CountOfEntry(ReadBackEntry(e)) == CountOfEntry(e) <==> EntryDistinct(e)
    ensures EntryDistinct(e) ==> MeaningOfEntry(ReadBackEntry(e)) == MeaningOfEntry(e)
    ensures EntryDistinct(e) ==> MeaningOf(ReadBackEntry(e).key) == MeaningOf(e.key)
    decreases e, 1
  {
    ReadBackKeeps(e.key);
    ReadBackKeeps(e.value);
  }

  // ----- entries can be counted in the meaning

  ghost function Weight(m: Meaning): nat
    decreases m, 2
  {
    match m
    case List(ms) => WeightOfAll(ms)
    case Mapping(ps) => WeightOfPairs(m, ps)
    case _ => 0
  }

  ghost function WeightOfAll(ms: seq<Meaning>): nat
    decreases ms, 3
  {
    if ms == [] then 0 else Weight(ms[0]) + WeightOfAll(ms[1..])
  }

  /** The weight of some of the pairs of m. */
  ghost function WeightOfPairs(m: Meaning, ps: multiset<(Meaning, Meaning)>): nat
    requires m.Mapping? && ps <= m.pairs
    decreases m, 1, |ps|
  {
    if ps == multiset{} then 0
    else var p :| p in ps; WeightOfPair(m, p) + WeightOfPairs(m, ps - multiset{p})
  }

  ghost function WeightOfPair(m: Meaning, p: (Meaning, Meaning)): nat
    requires m.Mapping? && p in m.pairs
    decreases m, 0
  {
    1 + Weight(p.0) + Weight(p.1)
  }

  lemma {:induction false} AnyPairCanComeFirst(m: Meaning, ps: multiset<(Meaning, Meaning)>, p: (Meaning, Meaning))
    requires m.Mapping? && ps <= m.pairs && p in ps
    ensures WeightOfPairs(m, ps) == WeightOfPair(m, p) + WeightOfPairs(m, ps - multiset{p})
    decreases |ps|
  {
    hide *;
    var q := FirstPair(m, ps);
    if q != p {
      Without(ps, p, q);
      AnyPairCanComeFirst(m, ps - multiset{q}, p);
      AnyPairCanComeFirst(m, ps - multiset{p}, q);
    }
  }

  lemma FirstPair(m: Meaning, ps: multiset<(Meaning, Meaning)>) returns (q: (Meaning, Meaning))
    requires m.Mapping? && ps <= m.pairs && ps != multiset{}
    ensures q in ps && WeightOfPairs(m, ps) == WeightOfPair(m, q) + WeightOfPairs(m, ps - multiset{q})
  {
    hide Weight, WeightOfPair;
    q :| q in ps && WeightOfPairs(m, ps) == WeightOfPair(m, q) + WeightOfPairs(m, ps - multiset{q});
  }

  lemma Without<T>(ps: multiset<T>, p: T, q: T)
    requires p in ps && q in ps && p != q
    ensures p in ps - multiset{q} && q in ps - multiset{p}
    ensures |ps - multiset{q}| < |ps| && |ps - multiset{p}| < |ps|
    ensures ps - multiset{q} - multiset{p} == ps - multiset{p} - multiset{q}
  {
  }

  lemma {:induction false} WeightIsCount(v: Pack)
    ensures Weight(MeaningOf(v)) == Count(v)
    decreases v, 0
  {
    match v
    case Array(es) => WeightOfAllIsCount(es);
    case Map(es) => WeightOfPairsIsCount(MeaningOf(v), es);
    case _ =>
  }

  lemma {:induction false} WeightOfAllIsCount(es: seq<Pack>)
    ensures WeightOfAll(MeaningOfAll(es)) == CountOfAll(es)
    decreases es, 1
  {
    if es != [] {
      WeightIsCount(es[0]);
      WeightOfAllIsCount(es[1..]);
      hide Weight, MeaningOf, Count;
      assert MeaningOfAll(es)[1..] == MeaningOfAll(es[1..]);
    }
  }

  lemma {:induction false} WeightOfPairsIsCount(m: Meaning, es: seq<Entry>)
    requires m.Mapping? && MeaningOfEntries(es) <= m.pairs
    ensures WeightOfPairs(m, MeaningOfEntries(es)) == CountOfEntries(es)
    decreases es, 1
  {
    if es != [] {
      var p, ps := MeaningOfEntry(es[0]), MeaningOfEntries(es);
      assert ps == multiset{p} + MeaningOfEntries(es[1..]);
      assert p in ps && p in m.pairs;
      EntryWeightIsCount(m, es[0]);
      WeightOfPairsIsCount(m, es[1..]);
      hide MeaningOfEntry, WeightOfPair, CountOfEntry, WeightOfPairs;
      AnyPairCanComeFirst(m, ps, p);
      assert ps - multiset{p} == MeaningOfEntries(es[1..]);
    }
  }

  lemma {:induction false} EntryWeightIsCount(m: Meaning, e: Entry)
    requires m.Mapping? && MeaningOfEntry(e) in m.pairs
    ensures WeightOfPair(m, MeaningOfEntry(e)) == CountOfEntry(e)
    decreases e, 1
  {
    WeightIsCount(e.key);
    WeightIsCount(e.value);
  }

  /** A value is read back with the meaning with which it was written exactly when its keys are distinct. */
  lemma MeaningIsKeptExactly(v: Pack)
    ensures MeaningOf(ReadBack(v)) == MeaningOf(v) <==> KeysDistinct(v)
  {
    ReadBackKeeps(v);
    WeightIsCount(v);
    WeightIsCount(ReadBack(v));
  }

  /** Two keys that only differ in the sign type: the second entry is lost. */
  lemma EqualNumbersCollide(n: nat, a: Pack, b: Pack)
    ensures var v := Map([Entry(Int(n), a), Entry(Uint(n), b)]);
            ReadBack(v) == Map([Entry(Uint(n), ReadBack(a))]) && MeaningOf(ReadBack(v)) != MeaningOf(v)
  {
    var es := [Entry(Int(n), a), Entry(Uint(n), b)];
    assert HasMeaning(es[1..], MeaningOf(es[0].key));
    MeaningIsKeptExactly(Map(es));
    var first, second := Entry(Uint(n), ReadBack(a)), Entry(Uint(n), ReadBack(b));
    SameKeyIsDropped(first, second);
    assert ReadBackEntry(es[0]) == first && ReadBackEntry(es[1..][0]) == second;
    assert ReadBackEntries([first], es[1..]) == [first];
    assert ReadBackEntries([], es) == [first];
  }

  lemma Reflexive(v: Pack)
    ensures Compare(v, v).Same?
  {
    Flip(v, v);
  }

  lemma SameKeyIsDropped(first: Entry, second: Entry)
    requires first.key == second.key
    ensures Emplaced([], first) == [first] && Emplaced([first], second) == [first]
  {
    hide Compare;
    Reflexive(first.key);
    assert HasKey([first], second.key);
  }

  /** The reader itself keeps both keys, should it meet a positive integer that is written as a signed one. */
  lemma SignsAreToldApart(n: nat, a: Pack, b: Pack)
    ensures Emplaced([Entry(Int(n), a)], Entry(Uint(n), b)) == [Entry(Int(n), a), Entry(Uint(n), b)]
  {
    var es, e := [Entry(Int(n), a)], Entry(Uint(n), b);
    assert es[1..] == [] && Compare(es[0].key, e.key).Before? && Compare(e.key, es[0].key).After?;
    assert Inserted(es[1..], e) == [e] && !HasKey(es[1..], e.key);
  }
}
