/** The order by which maps are sorted, and what the keys of a map that was read back have in common. */
module MsgPackOrder {
  import opened MsgPack

  // ----- it is a total order of what it tells apart

  lemma {:induction false} BytesFlip(s: seq<byte>, t: seq<byte>, signed: bool)
    ensures CompareBytes(t, s, signed) == CompareBytes(s, t, signed).Flipped()
  {
    if s != [] && t != [] {
      BytesFlip(s[1..], t[1..], signed);
    }
  }

  lemma {:induction false} Flip(v: Pack, w: Pack)
    ensures Compare(w, v) == Compare(v, w).Flipped()
    decreases v, 0
  {
    hide RealRank, CompareBytes;
    if Index(v) == Index(w) {
      match v
      case String(s) => BytesFlip(s, w.chars, false);
      case Binary(d) => BytesFlip(d, w.data, true);
      case Array(es) => FlipAll(es, w.elements);
      case Map(es) => FlipEntries(es, w.entries);
      case Extension(_, d) => BytesFlip(d, w.data, true);
      case _ =>
    }
  }

  lemma {:induction false} FlipAll(es: seq<Pack>, fs: seq<Pack>)
    ensures CompareAll(fs, es) == CompareAll(es, fs).Flipped()
    decreases es, 1
  {
    hide Compare;
    if es != [] && fs != [] {
      Flip(es[0], fs[0]);
      FlipAll(es[1..], fs[1..]);
    }
  }

  lemma {:induction false} FlipEntries(es: seq<Entry>, fs: seq<Entry>)
    ensures CompareEntries(fs, es) == CompareEntries(es, fs).Flipped()
    decreases es, 1
  {
    hide Compare, CompareEntry;
    if es != [] && fs != [] {
      FlipEntry(es[0], fs[0]);
      FlipEntries(es[1..], fs[1..]);
    }
  }

  lemma {:induction false} FlipEntry(e: Entry, f: Entry)
    ensures CompareEntry(f, e) == CompareEntry(e, f).Flipped()
    decreases e, 1
  {
    hide Compare;
    Flip(e.key, f.key);
    Flip(e.value, f.value);
  }

  /** z can be the order of the first and the third when x and y are those of the first two and the last two. */
  predicate Composes(x: Order, y: Order, z: Order) {
    (x.Same? ==> z == y) && (y.Same? ==> z == x) && (x == y ==> z == x)
  }

  lemma ThenComposes(x: Order, y: Order, z: Order, p: Order, q: Order, r: Order)
    requires Composes(x, y, z) && Composes(p, q, r)
    ensures Composes(x.Then(p), y.Then(q), z.Then(r))
  {
  }

  lemma {:induction false} BytesCompose(s: seq<byte>, t: seq<byte>, u: seq<byte>, signed: bool)
    ensures Composes(CompareBytes(s, t, signed), CompareBytes(t, u, signed), CompareBytes(s, u, signed))
  {
    if s != [] && t != [] && u != [] {
      BytesCompose(s[1..], t[1..], u[1..], signed);
    }
  }

  lemma {:induction false} Compose(u: Pack, v: Pack, w: Pack)
    ensures Composes(Compare(u, v), Compare(v, w), Compare(u, w))
    decreases u, 0
  {
    hide RealRank, CompareBytes;
    if Index(u) == Index(v) == Index(w) {
      match u
      case String(s) => BytesCompose(s, v.chars, w.chars, false);
      case Binary(d) => BytesCompose(d, v.data, w.data, true);
      case Array(es) => ComposeAll(es, v.elements, w.elements);
      case Map(es) => ComposeEntries(es, v.entries, w.entries);
      case Extension(_, d) => BytesCompose(d, v.data, w.data, true);
      case _ =>
    }
  }

  lemma {:induction false} ComposeAll(es: seq<Pack>, fs: seq<Pack>, gs: seq<Pack>)
    ensures Composes(CompareAll(es, fs), CompareAll(fs, gs), CompareAll(es, gs))
    decreases es, 1
  {
    hide Compare;
    if es != [] && fs != [] && gs != [] {
      Compose(es[0], fs[0], gs[0]);
      ComposeAll(es[1..], fs[1..], gs[1..]);
    }
  }

  lemma {:induction false} ComposeEntries(es: seq<Entry>, fs: seq<Entry>, gs: seq<Entry>)
    ensures Composes(CompareEntries(es, fs), CompareEntries(fs, gs), CompareEntries(es, gs))
    decreases es, 1
  {
    hide CompareEntry;
    if es != [] && fs != [] && gs != [] {
      ComposeEntry(es[0], fs[0], gs[0]);
      ComposeEntries(es[1..], fs[1..], gs[1..]);
    }
  }

  lemma {:induction false} ComposeEntry(e: Entry, f: Entry, g: Entry)
    ensures Composes(CompareEntry(e, f), CompareEntry(f, g), CompareEntry(e, g))
    decreases e, 1
  {
    hide Compare, Composes;
    Compose(e.key, f.key, g.key);
    Compose(e.value, f.value, g.value);
    ThenComposes(Compare(e.key, f.key), Compare(f.key, g.key), Compare(e.key, g.key),
                 Compare(e.value, f.value), Compare(f.value, g.value), Compare(e.value, g.value));
  }

  // ----- sorted maps

  /** The keys grow strictly, as they do in an ordered map. */
  predicate Sorted(es: seq<Entry>) {
    |es| > 1 ==> Compare(es[0].key, es[1].key).Before? && Sorted(es[1..])
  }

  lemma {:induction false} SortedAt(es: seq<Entry>, j: nat)
    requires Sorted(es) && 0 < j < |es|
    ensures Compare(es[0].key, es[j].key).Before?
  {
    hide Compare;
    if j > 1 {
      SortedAt(es[1..], j - 1);
      Compose(es[0].key, es[1].key, es[j].key);
    }
  }

  /** Emplacing keeps a map sorted. */
  lemma {:induction false} EmplacedIsSorted(es: seq<Entry>, e: Entry)
    requires Sorted(es)
    ensures Sorted(Emplaced(es, e))
  {
    if !HasKey(es, e.key) {
      InsertedIsSorted(es, e);
    }
  }

  lemma {:induction false} InsertedIsSorted(es: seq<Entry>, e: Entry)
    requires Sorted(es) && !HasKey(es, e.key)
    ensures Sorted(Inserted(es, e))
    ensures Inserted(es, e) != [] && (Inserted(es, e)[0] == e || (es != [] && Inserted(es, e)[0] == es[0]))
  {
    hide Compare;
    if es == [] {
      assert Inserted(es, e) == [e];
    } else if Compare(e.key, es[0].key).Before? {
      assert ([e] + es)[1..] == es;
    } else {
      Flip(es[0].key, e.key);
      InsertedIsSorted(es[1..], e);
      var rest := Inserted(es[1..], e);
      assert Inserted(es, e) == [es[0]] + rest && ([es[0]] + rest)[1..] == rest;
    }
  }

  /** The value is as the reader makes them: integers that are not negative are unsigned, and maps are sorted. */
  predicate Normal(v: Pack)
    decreases v, 0
  {
    match v
    case Int(i) => i < 0
    case Array(es) => AllNormal(es)
    case Map(es) => Sorted(es) && EntriesNormal(es)
    case _ => true
  }

  predicate AllNormal(es: seq<Pack>)
    decreases es, 1
  {
    es != [] ==> Normal(es[0]) && AllNormal(es[1..])
  }

  predicate EntriesNormal(es: seq<Entry>)
    decreases es, 1
  {
    es != [] ==> EntryNormal(es[0]) && EntriesNormal(es[1..])
  }

  predicate EntryNormal(e: Entry)
    decreases e, 1
  {
    Normal(e.key) && Normal(e.value)
  }

  lemma {:induction false} InsertedIsNormal(es: seq<Entry>, e: Entry)
    requires EntriesNormal(es) && EntryNormal(e)
    ensures EntriesNormal(Inserted(es, e))
  {
    hide Compare, EntryNormal;
    if es == [] || Compare(e.key, es[0].key).Before? {
      assert ([e] + es)[1..] == es;
    } else {
      InsertedIsNormal(es[1..], e);
      assert ([es[0]] + Inserted(es[1..], e))[1..] == Inserted(es[1..], e);
    }
  }

  lemma EmplacedIsNormal(es: seq<Entry>, e: Entry)
    requires Sorted(es) && EntriesNormal(es) && EntryNormal(e)
    ensures Sorted(Emplaced(es, e)) && EntriesNormal(Emplaced(es, e))
  {
    hide Sorted, EntriesNormal, EntryNormal, HasKey, Inserted;
    EmplacedIsSorted(es, e);
    InsertedIsNormal(es, e);
  }

  lemma {:induction false} ReadBackIsNormal(v: Pack)
    ensures Normal(ReadBack(v))
    decreases v, 0
  {
    match v
    case Array(es) => ReadBackAllIsNormal(es);
    case Map(es) => ReadBackEntriesIsNormal([], es);
    case _ =>
  }

  lemma {:induction false} ReadBackAllIsNormal(es: seq<Pack>)
    ensures AllNormal(ReadBackAll(es))
    decreases es, 1
  {
    if es != [] {
      ReadBackIsNormal(es[0]);
      ReadBackAllIsNormal(es[1..]);
      assert ReadBackAll(es)[1..] == ReadBackAll(es[1..]);
    }
  }

  lemma {:induction false} ReadBackEntriesIsNormal(front: seq<Entry>, es: seq<Entry>)
    requires Sorted(front) && EntriesNormal(front)
    ensures Sorted(ReadBackEntries(front, es)) && EntriesNormal(ReadBackEntries(front, es))
    decreases es, 1
  {
    hide Sorted, EntriesNormal, EntryNormal, Emplaced, ReadBackEntry;
    if es != [] {
      ReadBackEntryIsNormal(es[0]);
      EmplacedIsNormal(front, ReadBackEntry(es[0]));
      ReadBackEntriesIsNormal(Emplaced(front, ReadBackEntry(es[0])), es[1..]);
    }
  }

  lemma {:induction false} ReadBackEntryIsNormal(e: Entry)
    ensures EntryNormal(ReadBackEntry(e))
    decreases e, 1
  {
    ReadBackIsNormal(e.key);
    ReadBackIsNormal(e.value);
  }

  // ----- among values that were read back, the same key means an equal key

  lemma {:induction false} SameBytes(s: seq<byte>, t: seq<byte>, signed: bool)
    ensures CompareBytes(s, t, signed).Same? <==> s == t
  {
    if s != [] && t != [] {
      SameBytes(s[1..], t[1..], signed);
      assert s == [s[0]] + s[1..] && t == [t[0]] + t[1..];
    }
  }

  /** For values that were read back, the order tells two of them apart exactly if they mean something else. */
  lemma {:induction false} SameIsSameMeaning(v: Pack, w: Pack)
    requires Normal(v) && Normal(w)
    ensures Compare(v, w).Same? <==> MeaningOf(v) == MeaningOf(w)
    decreases v, 0
  {
    hide RealRank, CompareBytes;
    if Index(v) == Index(w) {
      match v
      case String(s) => SameBytes(s, w.chars, false);
      case Binary(d) => SameBytes(d, w.data, true);
      case Array(es) => AllSameIsSameMeaning(es, w.elements);
      case Map(es) => EntriesSameIsSameMeaning(es, w.entries);
      case Extension(_, d) => SameBytes(d, w.data, true);
      case _ =>
    }
  }

  lemma {:induction false} AllSameIsSameMeaning(es: seq<Pack>, fs: seq<Pack>)
    requires AllNormal(es) && AllNormal(fs)
    ensures CompareAll(es, fs).Same? <==> MeaningOfAll(es) == MeaningOfAll(fs)
    decreases es, 1
  {
    hide Compare, MeaningOf, Normal;
    if es != [] && fs != [] {
      SameIsSameMeaning(es[0], fs[0]);
      AllSameIsSameMeaning(es[1..], fs[1..]);
      var m, n := MeaningOfAll(es), MeaningOfAll(fs);
      assert m[0] == MeaningOf(es[0]) && m[1..] == MeaningOfAll(es[1..]);
      assert n[0] == MeaningOf(fs[0]) && n[1..] == MeaningOfAll(fs[1..]);
    }
  }

  lemma {:induction false} EntrySameIsSameMeaning(e: Entry, f: Entry)
    requires EntryNormal(e) && EntryNormal(f)
    ensures CompareEntry(e, f).Same? <==> MeaningOfEntry(e) == MeaningOfEntry(f)
    ensures Compare(e.key, f.key).Same? <==> MeaningOf(e.key) == MeaningOf(f.key)
    decreases e, 1
  {
    SameIsSameMeaning(e.key, f.key);
    SameIsSameMeaning(e.value, f.value);
    hide Compare, MeaningOf;
  }

  lemma {:induction false} EntriesSameIsSameMeaning(es: seq<Entry>, fs: seq<Entry>)
    requires Sorted(es) && EntriesNormal(es) && Sorted(fs) && EntriesNormal(fs)
    ensures CompareEntries(es, fs).Same? <==> MeaningOfEntries(es) == MeaningOfEntries(fs)
    decreases es, 1
  {
    hide CompareEntry, MeaningOfEntry, EntryNormal, Compare;
    if es != [] && fs != [] {
      EntrySameIsSameMeaning(es[0], fs[0]);
      EntriesSameIsSameMeaning(es[1..], fs[1..]);
      if MeaningOfEntries(es) == MeaningOfEntries(fs) {
        SmallestIsSame(es, fs);
        Cancelled(MeaningOfEntry(es[0]), MeaningOfEntries(es[1..]), MeaningOfEntries(fs[1..]));
      }
    }
  }

  lemma Cancelled<T>(x: T, a: multiset<T>, b: multiset<T>)
    requires multiset{x} + a == multiset{x} + b
    ensures a == b
  {
    assert a == multiset{x} + a - multiset{x};
    assert b == multiset{x} + b - multiset{x};
  }

  lemma {:induction false} EntryWith(es: seq<Entry>, p: (Meaning, Meaning)) returns (j: nat)
    requires p in MeaningOfEntries(es)
    ensures j < |es| && MeaningOfEntry(es[j]) == p
  {
    hide MeaningOfEntry;
    if MeaningOfEntry(es[0]) == p {
      j := 0;
    } else {
      j := EntryWith(es[1..], p);
      j := j + 1;
    }
  }

  lemma {:induction false} NormalAt(es: seq<Entry>, j: nat)
    requires EntriesNormal(es) && j < |es|
    ensures EntryNormal(es[j])
  {
    if j > 0 {
      NormalAt(es[1..], j - 1);
    }
  }

  /** Sorted maps of one meaning start with the same entry: each has the smallest key of the other. */
  lemma {:induction false} SmallestIsSame(es: seq<Entry>, fs: seq<Entry>)
    requires Sorted(es) && EntriesNormal(es) && Sorted(fs) && EntriesNormal(fs)
    requires es != [] && fs != [] && MeaningOfEntries(es) == MeaningOfEntries(fs)
    ensures MeaningOfEntry(es[0]) == MeaningOfEntry(fs[0])
    decreases es, 0
  {
    var i := EntryWith(es, MeaningOfEntry(fs[0]));
    var j := EntryWith(fs, MeaningOfEntry(es[0]));
    NormalAt(es, i);
    NormalAt(fs, j);
    EntrySameIsSameMeaning(es[i], fs[0]);
    EntrySameIsSameMeaning(es[0], fs[j]);
    hide Compare, MeaningOf, EntriesNormal, Sorted;
    if i > 0 && j > 0 {
      SortedAt(es, i);
      SortedAt(fs, j);
      Compose(es[0].key, es[i].key, fs[0].key);
      Compose(es[0].key, fs[0].key, fs[j].key);
    }
  }
}
