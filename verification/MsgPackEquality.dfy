/** When the library finds a value equal to what it is read back as. */
module MsgPackEquality {
  import opened MsgPack
  import opened MsgPackKeys
  import opened MsgPackOrder

  /** get<Int>: of an unsigned integer only if it is smaller than the largest signed one; otherwise 0. */
  function GetInt(v: Pack): int {
    match v
    case Int(i) => i
    case Uint(n) => if n < MAX_INT64 then n else 0
    case _ => 0
  }

  predicate IsNaN(memory: seq<byte>) {
    var rank := RealRank(memory);
    var magnitude := if rank < 0 then -rank else rank;
    if |memory| == 4 then magnitude > 0x7f80_0000 else magnitude > 0x7ff0_0000_0000_0000
  }

  predicate RealsEqual(a: seq<byte>, b: seq<byte>) {
    !IsNaN(a) && !IsNaN(b) && RealRank(a) == RealRank(b)
  }

  /** operator==, where approx is the comparison of a float with a double. */
  predicate Equal(v: Pack, w: Pack, approx: (seq<byte>, seq<byte>) -> bool)
    decreases v, 0
  {
    match (v, w)
    case (Nil, Nil) => true
    case (Bool(a), Bool(b)) => a == b
    case (Int(a), Int(b)) => a == b
    case (Uint(a), Uint(b)) => a == b
    case (Int(_), Uint(_)) => GetInt(v) == GetInt(w)
    case (Uint(_), Int(_)) => GetInt(v) == GetInt(w)
    case (Float(a), Float(b)) => RealsEqual(a, b)
    case (Double(a), Double(b)) => RealsEqual(a, b)
    case (Float(a), Double(b)) => approx(a, b)
    case (Double(a), Float(b)) => approx(a, b)
    case (String(a), String(b)) => a == b
    case (Binary(a), Binary(b)) => a == b
    case (Array(es), Array(fs)) => AllEqual(es, fs, approx)
    case (Map(es), Map(fs)) => EntriesEqual(es, fs, approx)
    case (Extension(k, d), Extension(l, e)) => k == l && d == e
    case _ => false
  }

  predicate AllEqual(es: seq<Pack>, fs: seq<Pack>, approx: (seq<byte>, seq<byte>) -> bool)
    decreases es, 1
  {
    if es == [] || fs == [] then es == [] && fs == []
    else Equal(es[0], fs[0], approx) && AllEqual(es[1..], fs[1..], approx)
  }

  /** Maps are compared entry by entry in the order of their keys. */
  predicate EntriesEqual(es: seq<Entry>, fs: seq<Entry>, approx: (seq<byte>, seq<byte>) -> bool)
    decreases es, 1
  {
    if es == [] || fs == [] then es == [] && fs == []
    else EntryEqual(es[0], fs[0], approx) && EntriesEqual(es[1..], fs[1..], approx)
  }

  predicate EntryEqual(e: Entry, f: Entry, approx: (seq<byte>, seq<byte>) -> bool)
    decreases e, 1
  {
    Equal(e.key, f.key, approx) && Equal(e.value, f.value, approx)
  }

  // ----- the condition

  /** There is no double inside. */
  predicate DoubleFree(v: Pack)
    decreases v, 0
  {
    match v
    case Double(_) => false
    case Array(es) => AllDoubleFree(es)
    case Map(es) => EntriesDoubleFree(es)
    case _ => true
  }

  predicate AllDoubleFree(es: seq<Pack>)
    decreases es, 1
  {
    es != [] ==> DoubleFree(es[0]) && AllDoubleFree(es[1..])
  }

  predicate EntriesDoubleFree(es: seq<Entry>)
    decreases es, 1
  {
    es != [] ==> EntryDoubleFree(es[0]) && EntriesDoubleFree(es[1..])
  }

  predicate EntryDoubleFree(e: Entry)
    decreases e, 1
  {
    DoubleFree(e.key) && DoubleFree(e.value)
  }

  /** Maps are sorted, as ordered maps are, and there are no doubles in keys that are arrays or maps. */
  predicate PlainKeys(v: Pack)
    decreases v, 0
  {
    match v
    case Array(es) => AllPlain(es)
    case Map(es) => Sorted(es) && EntriesPlain(es)
    case _ => true
  }

  predicate AllPlain(es: seq<Pack>)
    decreases es, 1
  {
    es != [] ==> PlainKeys(es[0]) && AllPlain(es[1..])
  }

  predicate EntriesPlain(es: seq<Entry>)
    decreases es, 1
  {
    es != [] ==> EntryPlain(es[0]) && EntriesPlain(es[1..])
  }

  predicate EntryPlain(e: Entry)
    decreases e, 1
  {
    (DoubleFree(e.key) || e.key.Double?) && PlainKeys(e.key) && PlainKeys(e.value)
  }

  /** Each key is read back as one that is smaller than what the next key is read back as. */
  predicate KeepsOrder(es: seq<Entry>) {
    |es| > 1 ==> Compare(ReadBack(es[0].key), ReadBack(es[1].key)).Before? && KeepsOrder(es[1..])
  }

  /** There is no NaN and not the largest signed integer, and reading back does not change the order of keys. */
  predicate StaysEqual(v: Pack)
    decreases v, 0
  {
    match v
    case Int(i) => i != MAX_INT64
    case Float(m) => !IsNaN(m)
    case Double(m) => !IsNaN(m)
    case Array(es) => AllStayEqual(es)
    case Map(es) => KeepsOrder(es) && EntriesStayEqual(es)
    case _ => true
  }

  predicate AllStayEqual(es: seq<Pack>)
    decreases es, 1
  {
    es != [] ==> StaysEqual(es[0]) && AllStayEqual(es[1..])
  }

  predicate EntriesStayEqual(es: seq<Entry>)
    decreases es, 1
  {
    es != [] ==> EntryStaysEqual(es[0]) && EntriesStayEqual(es[1..])
  }

  predicate EntryStaysEqual(e: Entry)
    decreases e, 1
  {
    StaysEqual(e.key) && StaysEqual(e.value)
  }

  // ----- keys that keep their order

  /** The entries as they are read back, in the order in which they were written. */
  function ReadBackEach(es: seq<Entry>): (fs: seq<Entry>)
    ensures |fs| == |es|
  {
    if es == [] then [] else [ReadBackEntry(es[0])] + ReadBackEach(es[1..])
  }

  lemma {:induction false} OrderIsKept(es: seq<Entry>)
    ensures KeepsOrder(es) <==> Sorted(ReadBackEach(es))
  {
    hide Compare, ReadBack;
    if |es| > 1 {
      OrderIsKept(es[1..]);
      var fs := ReadBackEach(es);
      assert fs[1..] == ReadBackEach(es[1..]) && fs[1] == ReadBackEntry(es[1]);
    }
  }

  /** The largest signed key is smaller than the smallest unsigned one. */
  predicate SignedFirst(es: seq<Entry>) {
    |es| > 1 ==> (es[0].key.Int? && es[1].key.Uint? ==> es[0].key.i < es[1].key.n) && SignedFirst(es[1..])
  }

  predicate ScalarKeys(es: seq<Entry>) {
    es != [] ==> !es[0].key.Array? && !es[0].key.Map? && ScalarKeys(es[1..])
  }

  /** Without arrays and maps among the keys, only signed keys that are too large change the order. */
  lemma {:induction false} ScalarKeysKeepOrderExactly(es: seq<Entry>)
    requires Sorted(es) && ScalarKeys(es)
    ensures KeepsOrder(es) <==> SignedFirst(es)
  {
    if |es| > 1 {
      ScalarKeysKeepOrderExactly(es[1..]);
      ScalarsKeepOrder(es[0].key, es[1].key);
    }
  }

  lemma ScalarsKeepOrder(v: Pack, w: Pack)
    requires !v.Array? && !v.Map? && !w.Array? && !w.Map? && Compare(v, w).Before?
    ensures Compare(ReadBack(v), ReadBack(w)).Before? <==> (v.Int? && w.Uint? ==> v.i < w.n)
  {
    hide CompareBytes, RealRank;
  }

  /** An entry with the largest key comes last. */
  lemma {:induction false} EmplacedLast(front: seq<Entry>, e: Entry)
    requires Sorted(front + [e])
    ensures Emplaced(front, e) == front + [e]
  {
    LargestIsNew(front, e);
    InsertedLast(front, e);
  }

  lemma {:induction false} SortedFromOne(front: seq<Entry>, e: Entry)
    requires front != [] && Sorted(front + [e])
    ensures Sorted(front[1..] + [e]) && Compare(front[0].key, e.key).Before?
  {
    hide Compare;
    var s := front + [e];
    assert s[1..] == front[1..] + [e];
    SortedAt(s, |front|);
  }

  lemma {:induction false} LargestIsNew(front: seq<Entry>, e: Entry)
    requires Sorted(front + [e])
    ensures !HasKey(front, e.key)
  {
    hide Compare, Sorted;
    if front != [] {
      SortedFromOne(front, e);
      LargestIsNew(front[1..], e);
    }
  }

  lemma {:induction false} InsertedLast(front: seq<Entry>, e: Entry)
    requires Sorted(front + [e])
    ensures Inserted(front, e) == front + [e]
  {
    hide Compare, Sorted;
    if front != [] {
      SortedFromOne(front, e);
      Flip(front[0].key, e.key);
      InsertedLast(front[1..], e);
    }
  }

  lemma {:induction false} SortedPrefix(s: seq<Entry>, t: seq<Entry>)
    requires Sorted(s + t)
    ensures Sorted(s)
  {
    hide Compare;
    if |s| > 1 {
      assert (s + t)[1..] == s[1..] + t;
      SortedPrefix(s[1..], t);
    }
  }

  lemma {:induction false} ReadBackInOrder(front: seq<Entry>, es: seq<Entry>)
    requires Sorted(front + ReadBackEach(es))
    ensures ReadBackEntries(front, es) == front + ReadBackEach(es)
    decreases es
  {
    hide Sorted, Emplaced, ReadBackEntry;
    if es != [] {
      var e := ReadBackEntry(es[0]);
      assert front + ReadBackEach(es) == (front + [e]) + ReadBackEach(es[1..]);
      SortedPrefix(front + [e], ReadBackEach(es[1..]));
      EmplacedLast(front, e);
      ReadBackInOrder(front + [e], es[1..]);
    } else {
      assert front + [] == front;
    }
  }

  // ----- keys that do not

  /** The order of the first keys that differ. */
  function CompareKeys(es: seq<Entry>, fs: seq<Entry>): Order {
    if es == [] || fs == [] then Same
    else Compare(es[0].key, fs[0].key).Then(CompareKeys(es[1..], fs[1..]))
  }

  lemma {:induction false} KeysFlip(es: seq<Entry>, fs: seq<Entry>)
    ensures CompareKeys(fs, es) == CompareKeys(es, fs).Flipped()
  {
    hide Compare;
    if es != [] && fs != [] {
      Flip(es[0].key, fs[0].key);
      KeysFlip(es[1..], fs[1..]);
    }
  }

  lemma {:induction false} KeysCompose(es: seq<Entry>, fs: seq<Entry>, gs: seq<Entry>)
    requires |es| == |fs| == |gs|
    ensures Composes(CompareKeys(es, fs), CompareKeys(fs, gs), CompareKeys(es, gs))
  {
    hide Compare;
    if es != [] {
      Compose(es[0].key, fs[0].key, gs[0].key);
      KeysCompose(es[1..], fs[1..], gs[1..]);
    }
  }

  /** An entry that is not put last makes the keys smaller. */
  lemma {:induction false} InsertingLowers(front: seq<Entry>, e: Entry, rest: seq<Entry>)
    ensures |Inserted(front, e)| == |front| + 1
    ensures Inserted(front, e) + rest == front + [e] + rest
            || CompareKeys(Inserted(front, e) + rest, front + [e] + rest).Before?
  {
    hide Compare;
    var was := front + [e] + rest;
    if front == [] {
    } else if Compare(e.key, front[0].key).Before? {
      assert (Inserted(front, e) + rest)[0] == e && was[0] == front[0];
    } else {
      InsertingLowers(front[1..], e, rest);
      Flip(front[0].key, front[0].key);
      assert Inserted(front, e) + rest == [front[0]] + (Inserted(front[1..], e) + rest);
      assert was == [front[0]] + (front[1..] + [e] + rest);
    }
  }

  /** Sorting makes the keys smaller, unless they are sorted. */
  lemma {:induction false} SortingLowers(front: seq<Entry>, es: seq<Entry>)
    requires Sorted(front) && EntriesNormal(front) && EntriesDistinct(es) && NewKeys(front, es)
    ensures |ReadBackEntries(front, es)| == |front| + |es|
    ensures ReadBackEntries(front, es) == front + ReadBackEach(es)
            || CompareKeys(ReadBackEntries(front, es), front + ReadBackEach(es)).Before?
    decreases es
  {
    hide *;
    if es == [] {
      NothingToRead(front);
    } else {
      var e, gs := ReadBackEntry(es[0]), ReadBackEach(es[1..]);
      var next := Inserted(front, e);
      NewEntryIsInserted(front, es);
      FirstIsRead(front, es);
      SortingLowers(next, es[1..]);
      InsertingLowers(front, e, gs);
      KeysStayLower(ReadBackEntries(front, es), next + gs, front + [e] + gs);
    }
  }

  lemma NothingToRead(front: seq<Entry>)
    ensures ReadBackEntries(front, []) == front == front + ReadBackEach([])
  {
  }

  lemma FirstIsRead(front: seq<Entry>, es: seq<Entry>)
    requires es != []
    ensures ReadBackEntries(front, es) == ReadBackEntries(Emplaced(front, ReadBackEntry(es[0])), es[1..])
    ensures front + ReadBackEach(es) == front + [ReadBackEntry(es[0])] + ReadBackEach(es[1..])
  {
    hide Emplaced, ReadBackEntry;
  }

  lemma KeysStayLower(es: seq<Entry>, fs: seq<Entry>, gs: seq<Entry>)
    requires |es| == |fs| == |gs|
    requires es == fs || CompareKeys(es, fs).Before?
    requires fs == gs || CompareKeys(fs, gs).Before?
    ensures es == gs || CompareKeys(es, gs).Before?
  {
    hide CompareKeys;
    KeysCompose(es, fs, gs);
  }

  /** An inserted entry does not make a map larger than another one to which a larger entry is appended. */
  lemma {:induction false} InsertedIsNotLater(front: seq<Entry>, hs: seq<Entry>, e: Entry, f: Entry)
    requires |front| == |hs| && !CompareEntries(front, hs).After? && !CompareEntry(e, f).After?
    ensures !CompareEntries(Inserted(front, e), hs + [f]).After?
  {
    hide Compare;
    var now, was := Inserted(front, e), hs + [f];
    if front == [] {
      assert now == [e] && was == [f];
    } else if Compare(e.key, front[0].key).Before? {
      Compose(e.key, front[0].key, hs[0].key);
      Flip(front[0].key, hs[0].key);
      Compose(e.key, hs[0].key, front[0].key);
      assert now[0] == e && was[0] == hs[0];
    } else {
      if CompareEntry(front[0], hs[0]).Same? {
        InsertedIsNotLater(front[1..], hs[1..], e, f);
      }
      assert now[1..] == Inserted(front[1..], e) && was[1..] == hs[1..] + [f];
    }
  }

  /** What equals a value without doubles is not smaller than what the value is read back as. */
  lemma {:induction false} EqualIsNotSmaller(v: Pack, r: Pack, approx: (seq<byte>, seq<byte>) -> bool)
    requires KeysDistinct(v) && DoubleFree(v) && Normal(r) && Equal(v, r, approx)
    ensures !Compare(ReadBack(v), r).After?
    decreases v, 0
  {
    hide CompareBytes, RealRank, IsNaN;
    match v
    case String(s) => Flip(v, v);
    case Binary(d) => Flip(v, v);
    case Extension(_, d) => Flip(v, v);
    case Array(es) => AllEqualIsNotSmaller(es, r.elements, approx);
    case Map(es) =>
      NothingIsNew(es);
      EntriesEqualIsNotSmaller([], [], es, r.entries, approx);
      assert [] + r.entries == r.entries;
    case _ =>
  }

  lemma {:induction false} AllEqualIsNotSmaller(es: seq<Pack>, fs: seq<Pack>, approx: (seq<byte>, seq<byte>) -> bool)
    requires AllDistinct(es) && AllDoubleFree(es) && AllNormal(fs) && AllEqual(es, fs, approx)
    ensures !CompareAll(ReadBackAll(es), fs).After?
    decreases es, 1
  {
    hide Equal, Compare, DoubleFree, KeysDistinct, Normal, ReadBack;
    if es != [] {
      EqualIsNotSmaller(es[0], fs[0], approx);
      AllEqualIsNotSmaller(es[1..], fs[1..], approx);
      assert ReadBackAll(es)[1..] == ReadBackAll(es[1..]);
    }
  }

  lemma {:induction false} EntriesEqualIsNotSmaller(front: seq<Entry>, hs: seq<Entry>, es: seq<Entry>, fs: seq<Entry>,
                                                    approx: (seq<byte>, seq<byte>) -> bool)
    requires Sorted(front) && EntriesNormal(front) && EntriesDistinct(es) && NewKeys(front, es)
    requires |front| == |hs| && !CompareEntries(front, hs).After?
    requires EntriesDoubleFree(es) && EntriesNormal(fs) && EntriesEqual(es, fs, approx)
    ensures !CompareEntries(ReadBackEntries(front, es), hs + fs).After?
    decreases es, 1
  {
    hide EntryEqual, CompareEntries, EntryDoubleFree, EntryNormal, EntryDistinct, Sorted, NewKeys, Inserted, Emplaced,
         ReadBackEntry, MeaningOf;
    if es == [] {
      assert hs + fs == hs;
    } else {
      var e := ReadBackEntry(es[0]);
      NewEntryIsInserted(front, es);
      EntryEqualIsNotSmaller(es[0], fs[0], approx);
      InsertingLowers(front, e, []);
      InsertedIsNotLater(front, hs, e, fs[0]);
      EntriesEqualIsNotSmaller(Inserted(front, e), hs + [fs[0]], es[1..], fs[1..], approx);
      assert (hs + [fs[0]]) + fs[1..] == hs + fs;
    }
  }

  lemma {:induction false} EntryEqualIsNotSmaller(e: Entry, f: Entry, approx: (seq<byte>, seq<byte>) -> bool)
    requires EntryDistinct(e) && EntryDoubleFree(e) && EntryNormal(f) && EntryEqual(e, f, approx)
    ensures !CompareEntry(ReadBackEntry(e), f).After?
    decreases e, 1
  {
    EqualIsNotSmaller(e.key, f.key, approx);
    EqualIsNotSmaller(e.value, f.value, approx);
  }

  // ----- equal values have as many entries

  lemma {:induction false} EqualCounts(v: Pack, w: Pack, approx: (seq<byte>, seq<byte>) -> bool)
    requires Equal(v, w, approx)
    ensures Count(v) == Count(w)
    decreases v, 0
  {
    match v
    case Array(es) => AllEqualCounts(es, w.elements, approx);
    case Map(es) => EntriesEqualCounts(es, w.entries, approx);
    case _ =>
  }

  lemma {:induction false} AllEqualCounts(es: seq<Pack>, fs: seq<Pack>, approx: (seq<byte>, seq<byte>) -> bool)
    requires AllEqual(es, fs, approx)
    ensures CountOfAll(es) == CountOfAll(fs)
    decreases es, 1
  {
    hide Equal, Count;
    if es != [] {
      EqualCounts(es[0], fs[0], approx);
      AllEqualCounts(es[1..], fs[1..], approx);
    }
  }

  lemma {:induction false} EntriesEqualCounts(es: seq<Entry>, fs: seq<Entry>, approx: (seq<byte>, seq<byte>) -> bool)
    requires EntriesEqual(es, fs, approx)
    ensures CountOfEntries(es) == CountOfEntries(fs)
    decreases es, 1
  {
    hide EntryEqual, CountOfEntry;
    if es != [] {
      EntryEqualCounts(es[0], fs[0], approx);
      EntriesEqualCounts(es[1..], fs[1..], approx);
    }
  }

  lemma {:induction false} EntryEqualCounts(e: Entry, f: Entry, approx: (seq<byte>, seq<byte>) -> bool)
    requires EntryEqual(e, f, approx)
    ensures CountOfEntry(e) == CountOfEntry(f)
    decreases e, 1
  {
    EqualCounts(e.key, f.key, approx);
    EqualCounts(e.value, f.value, approx);
  }

  // ----- the first key that differs

  lemma {:induction false} FirstDifference(es: seq<Entry>, fs: seq<Entry>) returns (j: nat)
    requires CompareKeys(es, fs).After?
    ensures j < |es| && j < |fs| && Compare(es[j].key, fs[j].key).After?
    ensures forall i :: 0 <= i < j ==> Compare(es[i].key, fs[i].key).Same?
  {
    hide Compare;
    if Compare(es[0].key, fs[0].key).After? {
      j := 0;
    } else {
      j := FirstDifference(es[1..], fs[1..]);
      j := j + 1;
      forall i | 0 <= i < j ensures Compare(es[i].key, fs[i].key).Same? {
        assert i > 0 ==> es[i] == es[1..][i - 1] && fs[i] == fs[1..][i - 1];
      }
    }
  }

  lemma {:induction false} EntriesAt(es: seq<Entry>, fs: seq<Entry>, j: nat, approx: (seq<byte>, seq<byte>) -> bool)
    requires j < |es| && j < |fs| && EntriesEqual(es, fs, approx) && EntriesPlain(es) && EntriesDistinct(es)
    ensures EntryEqual(es[j], fs[j], approx) && EntryPlain(es[j]) && EntryDistinct(es[j])
    ensures ReadBackEach(es)[j] == ReadBackEntry(es[j])
  {
    hide EntryEqual, EntryPlain, EntryDistinct, HasMeaning, ReadBackEntry;
    if j > 0 {
      EntriesAt(es[1..], fs[1..], j - 1, approx);
    }
  }

  lemma {:induction false} InsertedFrom(es: seq<Entry>, e: Entry, f: Entry)
    requires f in Inserted(es, e)
    ensures f == e || f in es
  {
    hide Compare;
    if es != [] && !Compare(e.key, es[0].key).Before? && f != es[0] {
      InsertedFrom(es[1..], e, f);
    }
  }

  lemma {:induction false} ReadBackFrom(front: seq<Entry>, es: seq<Entry>, f: Entry)
    requires f in ReadBackEntries(front, es)
    ensures f in front || f in ReadBackEach(es)
    decreases es
  {
    hide Inserted, HasKey, ReadBackEntry;
    if es != [] {
      var e := ReadBackEntry(es[0]);
      ReadBackFrom(Emplaced(front, e), es[1..], f);
      if f in Inserted(front, e) {
        InsertedFrom(front, e, f);
      }
    }
  }

  lemma {:induction false} SortedBetween(es: seq<Entry>, i: nat, j: nat)
    requires Sorted(es) && i < j < |es|
    ensures Compare(es[i].key, es[j].key).Before?
  {
    hide Compare;
    if i > 0 {
      SortedBetween(es[1..], i - 1, j - 1);
    } else {
      SortedAt(es, j);
    }
  }

  lemma {:induction false} ReadBackEachAt(es: seq<Entry>, j: nat)
    requires j < |es|
    ensures ReadBackEach(es)[j] == ReadBackEntry(es[j])
  {
    if j > 0 {
      ReadBackEachAt(es[1..], j - 1);
    }
  }

  /** A float cannot have taken the place of a double: all floats stay before all doubles. */
  lemma {:induction false} FloatsStayFirst(es: seq<Entry>, j: nat)
    requires Sorted(es) && Sorted(ReadBackEntries([], es))
    requires j < |es| && j < |ReadBackEntries([], es)| && es[j].key.Double?
    requires forall i :: 0 <= i < j ==> Compare(ReadBackEach(es)[i].key, ReadBackEntries([], es)[i].key).Same?
    ensures !ReadBackEntries([], es)[j].key.Float?
  {
    hide Sorted, ReadBackEntries, ReadBackEach;
    var rs, gs := ReadBackEntries([], es), ReadBackEach(es);
    ReadBackFrom([], es, rs[j]);
    var i :| 0 <= i < |gs| && gs[i] == rs[j];
    ReadBackEachAt(es, i);
    FloatIsReadBackFromFloat(es[i].key);
    if i < j {
      SortedBetween(rs, i, j);
    } else if i > j {
      SortedBetween(es, j, i);
    }
  }

  lemma FloatIsReadBackFromFloat(v: Pack)
    ensures ReadBack(v).Float? <==> v.Float?
  {
  }

  /** No key is equal to a smaller one than it is read back as. */
  lemma {:induction false} NoKeyIsLater(es: seq<Entry>, approx: (seq<byte>, seq<byte>) -> bool)
    requires Sorted(es) && EntriesPlain(es) && EntriesDistinct(es) && EntriesEqual(es, ReadBackEntries([], es), approx)
    ensures !CompareKeys(ReadBackEach(es), ReadBackEntries([], es)).After?
  {
    hide *;
    var rs, gs := ReadBackEntries([], es), ReadBackEach(es);
    if CompareKeys(gs, rs).After? {
      var j := FirstDifference(gs, rs);
      NothingIsSorted();
      ReadBackEntriesIsNormal([], es);
      NormalAt(rs, j);
      EntriesAt(es, rs, j, approx);
      if es[j].key.Double? {
        LaterThanFloat(es[j], rs[j], approx);
        FloatsStayFirst(es, j);
      } else {
        KeyIsNotSmaller(es[j], rs[j], approx);
      }
    }
  }

  lemma LaterThanFloat(e: Entry, r: Entry, approx: (seq<byte>, seq<byte>) -> bool)
    requires e.key.Double? && EntryEqual(e, r, approx) && Compare(ReadBackEntry(e).key, r.key).After?
    ensures r.key.Float?
  {
    hide RealRank, IsNaN;
  }

  lemma KeyIsNotSmaller(e: Entry, r: Entry, approx: (seq<byte>, seq<byte>) -> bool)
    requires !e.key.Double? && EntryPlain(e) && EntryDistinct(e) && EntryNormal(r) && EntryEqual(e, r, approx)
    ensures !Compare(ReadBackEntry(e).key, r.key).After?
  {
    EqualIsNotSmaller(e.key, r.key, approx);
  }

  // ----- the exact condition

  /** By operator== a value is equal to what it is read back as exactly if StaysEqual holds. */
  lemma {:induction false} EqualToReadBackExactly(v: Pack, approx: (seq<byte>, seq<byte>) -> bool)
    requires Writable(v) && PlainKeys(v)
    ensures Equal(v, ReadBack(v), approx) <==> StaysEqual(v)
    decreases v, 0
  {
    hide IsNaN, RealRank;
    match v
    case Array(es) => AllEqualExactly(es, approx);
    case Map(es) => MapEqualExactly(es, approx);
    case _ =>
  }

  lemma {:induction false} AllEqualExactly(es: seq<Pack>, approx: (seq<byte>, seq<byte>) -> bool)
    requires AllWritable(es) && AllPlain(es)
    ensures AllEqual(es, ReadBackAll(es), approx) <==> AllStayEqual(es)
    decreases es, 1
  {
    hide Equal, StaysEqual, ReadBack, Writable, PlainKeys;
    if es != [] {
      EqualToReadBackExactly(es[0], approx);
      AllEqualExactly(es[1..], approx);
      assert ReadBackAll(es)[1..] == ReadBackAll(es[1..]);
    }
  }

  lemma {:induction false} MapEqualExactly(es: seq<Entry>, approx: (seq<byte>, seq<byte>) -> bool)
    requires EntriesWritable(es) && Sorted(es) && EntriesPlain(es)
    ensures EntriesEqual(es, ReadBackEntries([], es), approx) <==> KeepsOrder(es) && EntriesStayEqual(es)
    decreases es, 2
  {
    hide *;
    var rs, gs := ReadBackEntries([], es), ReadBackEach(es);
    EachEqualExactly(es, approx);
    OrderIsKept(es);
    assert [] + gs == gs;
    NothingIsSorted();
    if KeepsOrder(es) {
      ReadBackInOrder([], es);
    } else if EntriesEqual(es, rs, approx) {
      NoEntryIsLost(es, approx);
      NothingIsNew(es);
      ReadBackEntriesIsNormal([], es);
      SortingLowers([], es);
      NoKeyIsLater(es, approx);
      KeysFlip(gs, rs);
      FlippedBefore(CompareKeys(rs, gs), CompareKeys(gs, rs));
    }
  }

  lemma FlippedBefore(x: Order, y: Order)
    requires x == y.Flipped()
    ensures x.Before? <==> y.After?
  {
  }

  lemma NoEntryIsLost(es: seq<Entry>, approx: (seq<byte>, seq<byte>) -> bool)
    requires EntriesEqual(es, ReadBackEntries([], es), approx)
    ensures EntriesDistinct(es)
  {
    hide EntriesEqual, ReadBackEntries, CountOfEntries, EntriesDistinct;
    EntriesEqualCounts(es, ReadBackEntries([], es), approx);
    ReadBackKeeps(Map(es));
  }

  lemma NothingIsSorted()
    ensures Sorted([]) && EntriesNormal([])
  {
  }

  lemma {:induction false} EachEqualExactly(es: seq<Entry>, approx: (seq<byte>, seq<byte>) -> bool)
    requires EntriesWritable(es) && EntriesPlain(es)
    ensures EntriesEqual(es, ReadBackEach(es), approx) <==> EntriesStayEqual(es)
    decreases es, 1
  {
    hide EntryEqual, EntryStaysEqual, EntryWritable, EntryPlain, ReadBackEntry;
    if es != [] {
      EntryEqualExactly(es[0], approx);
      EachEqualExactly(es[1..], approx);
      assert ReadBackEach(es)[1..] == ReadBackEach(es[1..]);
    }
  }

  lemma {:induction false} EntryEqualExactly(e: Entry, approx: (seq<byte>, seq<byte>) -> bool)
    requires EntryWritable(e) && EntryPlain(e)
    ensures EntryEqual(e, ReadBackEntry(e), approx) <==> EntryStaysEqual(e)
    decreases e, 1
  {
    EqualToReadBackExactly(e.key, approx);
    EqualToReadBackExactly(e.value, approx);
  }

  /** For a single integer: all but the largest signed one. */
  lemma IntegersCompareEqualExactly(v: Pack, approx: (seq<byte>, seq<byte>) -> bool)
    requires Writable(v) && (v.Int? || v.Uint?)
    ensures Equal(v, ReadBack(v), approx) <==> v != Int(MAX_INT64)
  {
    EqualToReadBackExactly(v, approx);
  }

  /** A signed key that is larger than an unsigned one: the reader puts them the other way around. */
  lemma ReorderedKeysShow(a: Pack, b: Pack, approx: (seq<byte>, seq<byte>) -> bool)
    ensures var v := Map([Entry(Int(5), a), Entry(Uint(3), b)]);
            && ReadBack(v) == Map([Entry(Uint(3), ReadBack(b)), Entry(Uint(5), ReadBack(a))])
            && !Equal(v, ReadBack(v), approx)
  {
    hide Equal;
    var es := [Entry(Int(5), a), Entry(Uint(3), b)];
    var first, second := Entry(Uint(5), ReadBack(a)), Entry(Uint(3), ReadBack(b));
    assert ReadBackEntry(es[0]) == first && ReadBackEntry(es[1..][0]) == second && es[1..][1..] == [];
    SmallerIsFirst(first, second);
    assert ReadBackEntries([first], es[1..]) == [second, first];
    assert ReadBackEntries([], es) == [second, first];
    FirstKeysDiffer(es, [second, first], approx);
  }

  lemma SmallerIsFirst(first: Entry, second: Entry)
    requires first.key == Uint(5) && second.key == Uint(3)
    ensures Emplaced([], first) == [first] && Emplaced([first], second) == [second, first]
  {
    assert !HasKey([first][1..], second.key);
    assert Inserted([first], second) == [second] + [first];
  }

  lemma FirstKeysDiffer(es: seq<Entry>, fs: seq<Entry>, approx: (seq<byte>, seq<byte>) -> bool)
    requires es != [] && fs != [] && es[0].key == Int(5) && fs[0].key == Uint(3)
    ensures !Equal(Map(es), Map(fs), approx)
  {
    assert !Equal(es[0].key, fs[0].key, approx);
    assert !EntriesEqual(es, fs, approx);
  }
}
