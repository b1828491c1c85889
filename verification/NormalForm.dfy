/** Canonical encodings decide equality up to the order of map entries, at every depth. */
module NormalForm {
  import opened Basics
  import opened ByteStrings
  import opened Cbor
  import opened UniqueDecoding
  import opened KeySort
  import opened Canonical

  function Without<T>(s: seq<T>, j: nat): (r: seq<T>)
    requires j < |s|
    ensures |r| == |s| - 1 && forall i :: 0 <= i < |r| ==> r[i] == s[if i < j then i else i + 1]
  {
    s[..j] + s[j + 1..]
  }

  lemma WithoutMultiset<T>(s: seq<T>, j: nat)
    requires j < |s|
    ensures multiset(s) == multiset(Without(s, j)) + multiset{s[j]}
  {
    assert s == s[..j] + [s[j]] + s[j + 1..];
  }

  /** Each entry on the left is taken out of the right exactly once. */
  ghost predicate SameEntries(es: seq<Entry>, fs: seq<Entry>)
    decreases es
  {
    if |es| == 0 then |fs| == 0
    else
      assert es decreases to es[0];
      exists j: nat :: j < |fs| && SameEntry(es[0], fs[j]) && SameEntries(es[1..], Without(fs, j))
  }

  /** The two values differ at most in the order of their maps' entries, at any depth. */
  ghost predicate Same(v: Value, w: Value)
    decreases v
  {
    match v
    case Array(items) => w.Array? && |items| == |w.items| && forall i :: 0 <= i < |items| ==> Same(items[i], w.items[i])
    case Map(entries) => w.Map? && SameEntries(entries, w.entries)
    case Tag(t, inner) => w.Tag? && w.tag == t && Same(inner, w.inner)
    case _ => v == w
  }

  ghost predicate SameEntry(e: Entry, f: Entry)
    decreases e
  {
    Same(e.key, f.key) && Same(e.val, f.val)
  }

  /** No map at any depth has two keys that are the same up to order. */
  ghost predicate DistinctDeep(v: Value)
  {
    match v
    case Array(items) => forall x :: x in items ==> DistinctDeep(x)
    case Map(entries) =>
      && (forall i, j :: 0 <= i < j < |entries| ==> !Same(entries[i].key, entries[j].key))
      && (forall e :: e in entries ==> DistinctDeepEntry(e))
    case Tag(_, inner) => DistinctDeep(inner)
    case _ => true
  }

  ghost predicate DistinctDeepEntry(e: Entry)
  {
    DistinctDeep(e.key) && DistinctDeep(e.val)
  }

  // ---- equal canonical forms are the same value -----------------------------------------------

  lemma CanonWithout(es: seq<Entry>, j: nat)
    requires j < |es|
    ensures CanonEntries(Without(es, j)) == Without(CanonEntries(es), j)
  {
    hide CanonEntry, CanonEntries, Without;
    var left, right := CanonEntries(Without(es, j)), Without(CanonEntries(es), j);
    assert |left| == |right|;
    forall i | 0 <= i < |left|
      ensures left[i] == right[i]
    {
      assert left[i] == CanonEntry(es[if i < j then i else i + 1]);
    }
  }

  lemma WithoutFirst<T>(s: seq<T>)
    requires |s| > 0
    ensures Without(s, 0) == s[1..]
  {
  }

  lemma MultisetWithout<T>(xs: seq<T>, i: nat, ys: seq<T>, j: nat)
    requires i < |xs| && j < |ys| && xs[i] == ys[j]
    ensures multiset(Without(xs, i)) == multiset(Without(ys, j)) <==> multiset(xs) == multiset(ys)
  {
    hide Without;
    WithoutMultiset(xs, i);
    WithoutMultiset(ys, j);
    assert multiset(Without(xs, i)) == multiset(xs) - multiset{xs[i]};
    assert multiset(Without(ys, j)) == multiset(ys) - multiset{ys[j]};
  }

  lemma {:induction false} EqualCanonSameEntries(es: seq<Entry>, fs: seq<Entry>)
    requires multiset(CanonEntries(es)) == multiset(CanonEntries(fs))
    ensures SameEntries(es, fs)
    decreases es
  {
    hide CanonEntry, CanonEntries, Same, Without;
    var ces, cfs := CanonEntries(es), CanonEntries(fs);
    if |es| == 0 {
      assert |multiset(ces)| == |ces| && |multiset(cfs)| == |cfs|;
    } else {
      assert es decreases to es[0];
      assert ces[0] in multiset(ces);
      assert ces[0] in cfs;
      var j: nat :| j < |fs| && cfs[j] == ces[0];
      SameEntryFromCanon(es[0], fs[j]);
      CanonWithout(es, 0);
      CanonWithout(fs, j);
      WithoutFirst(es);
      MultisetWithout(ces, 0, cfs, j);
      EqualCanonSameEntries(es[1..], Without(fs, j));
    }
  }

  lemma {:induction false} EqualCanonSame(v: Value, w: Value)
    requires Canon(v) == Canon(w)
    ensures Same(v, w)
    decreases v
  {
    hide Sort;
    match v
    case Array(items) =>
      forall i | 0 <= i < |items|
        ensures Same(items[i], w.items[i])
      {
        assert CanonItems(items)[i] == CanonItems(w.items)[i];
        EqualCanonSame(items[i], w.items[i]);
      }
    case Map(entries) =>
      SortMultiset(CanonEntries(entries));
      SortMultiset(CanonEntries(w.entries));
      EqualCanonSameEntries(entries, w.entries);
    case Tag(_, inner) => EqualCanonSame(inner, w.inner);
    case _ =>
  }

  lemma {:induction false} SameEntryFromCanon(e: Entry, f: Entry)
    requires CanonEntry(e) == CanonEntry(f)
    ensures SameEntry(e, f)
    decreases e
  {
    EqualCanonSame(e.key, f.key);
    EqualCanonSame(e.val, f.val);
  }

  // ---- the same value has one canonical form --------------------------------------------------

  lemma CanonKeysDistinct(es: seq<Entry>)
    requires forall i, j :: 0 <= i < j < |es| ==> !Same(es[i].key, es[j].key)
    requires FitsEntries(CanonEntries(es))
    ensures DistinctKeys(CanonEntries(es))
  {
    hide Same, Canon, Encode, Fits, CanonEntries;
    var ces := CanonEntries(es);
    forall i, j | 0 <= i < j < |ces|
      ensures KeyBytes(ces[i]) != KeyBytes(ces[j])
    {
      if KeyBytes(ces[i]) == KeyBytes(ces[j]) {
        assert ces[i] in ces && ces[j] in ces;
        EncodeInjective(ces[i].key, ces[j].key);
        EqualCanonSame(es[i].key, es[j].key);
      }
    }
  }

  lemma {:induction false} SameEntriesMultiset(es: seq<Entry>, fs: seq<Entry>)
    requires SameEntries(es, fs)
    requires forall e :: e in es ==> DistinctDeepEntry(e)
    requires FitsEntries(CanonEntries(es))
    ensures multiset(CanonEntries(es)) == multiset(CanonEntries(fs))
    decreases es
  {
    hide CanonEntry, CanonEntries, Same, DistinctDeepEntry, Without, Fits;
    if |es| > 0 {
      assert es decreases to es[0];
      var j: nat :| j < |fs| && SameEntry(es[0], fs[j]) && SameEntries(es[1..], Without(fs, j));
      var ces, cfs := CanonEntries(es), CanonEntries(fs);
      assert ces[0] in ces && ces[0] == CanonEntry(es[0]) && cfs[j] == CanonEntry(fs[j]);
      SameEntryCanon(es[0], fs[j]);
      WithoutFirst(es);
      CanonWithout(es, 0);
      CanonWithout(fs, j);
      SameEntriesMultiset(es[1..], Without(fs, j));
      MultisetWithout(ces, 0, cfs, j);
    }
  }

  lemma {:induction false} SameEqualCanon(v: Value, w: Value)
    requires Same(v, w) && DistinctDeep(v) && Fits(Canon(v))
    ensures Canon(v) == Canon(w)
    decreases v
  {
    hide Sort, Sorted, DistinctKeys;
    match v
    case Array(items) =>
      forall i | 0 <= i < |items|
        ensures Canon(items[i]) == Canon(w.items[i])
      {
        assert CanonItems(items)[i] in CanonItems(items);
        SameEqualCanon(items[i], w.items[i]);
      }
      assert CanonItems(items) == CanonItems(w.items);
    case Map(entries) =>
      forall e | e in CanonEntries(entries)
        ensures Fits(e.key) && Fits(e.val)
      {
        SortMembers(CanonEntries(entries), e);
      }
      SameEntriesMultiset(entries, w.entries);
      CanonKeysDistinct(entries);
      SortMultiset(CanonEntries(w.entries));
      SortSorted(CanonEntries(w.entries));
      SortDistinct(CanonEntries(entries), Sort(CanonEntries(w.entries)));
    case Tag(_, inner) => SameEqualCanon(inner, w.inner);
    case _ =>
  }

  lemma {:induction false} SameEntryCanon(e: Entry, f: Entry)
    requires SameEntry(e, f) && DistinctDeepEntry(e)
    requires Fits(CanonEntry(e).key) && Fits(CanonEntry(e).val)
    ensures CanonEntry(e) == CanonEntry(f)
    decreases e
  {
    SameEqualCanon(e.key, f.key);
    SameEqualCanon(e.val, f.val);
  }

  /**
   * The canonical encoding is a true normal form: for values with distinct keys, being equal up
   * to the order of map entries and encoding to the same canonical bytes are one thing.
   */
  lemma CanonicalEncodingDecidesSameness(v: Value, w: Value)
    requires DistinctDeep(v)
    requires |Encode(Canon(v))| < TWO_64 && |Encode(Canon(w))| < TWO_64
    ensures Same(v, w) <==> Encode(Canon(v)) == Encode(Canon(w))
  {
    hide *;
    ShortEncodingFits(Canon(v));
    ShortEncodingFits(Canon(w));
    if Same(v, w) {
      SameEqualCanon(v, w);
    }
    if Encode(Canon(v)) == Encode(Canon(w)) {
      EncodeInjective(Canon(v), Canon(w));
      EqualCanonSame(v, w);
    }
  }

  lemma SameInts(e: Entry)
    requires e.key.Int? && e.val.Int?
    ensures SameEntry(e, e)
  {
  }

  lemma SameMaps(es: seq<Entry>, fs: seq<Entry>)
    ensures Same(Map(es), Map(fs)) <==> SameEntries(es, fs)
  {
  }

  lemma SwappedSame(a: Entry, b: Entry)
    requires a.key.Int? && b.key.Int? && a.val.Int? && b.val.Int?
    ensures Same(Map([a, b]), Map([b, a]))
  {
    hide Without, Same;
    SameInts(a);
    SameInts(b);
    assert Without([b], 0) == [] && [b][1..] == [] && SameEntries([], []);
    assert SameEntry([b][0], [b][0]) && SameEntries([b], [b]);
    assert Without([b, a], 1) == [b] && [a, b][1..] == [b];
    assert SameEntry([a, b][0], [b, a][1]) && SameEntries([a, b], [b, a]);
    SameMaps([a, b], [b, a]);
  }

  lemma RepeatedKeyStays(a: Entry, b: Entry)
    requires a.key == b.key && a.key.Int? && a.val.Int? && b.val.Int?
    ensures Canon(Map([a, b])) == Map([a, b]) && Fits(Map([a, b]))
  {
    hide Encode, Canon;
    LexRefl(KeyBytes(a));
    assert SortedDeepEntry(a) && SortedDeepEntry(b);
    assert Fits(a.key) && Fits(a.val) && Fits(b.val);
    CanonFixed(Map([a, b]));
  }

  /** Without distinct keys it is not: the stable sort keeps repeated keys in the order they came. */
  lemma RepeatedKeysShowOrder()
    ensures var a, b := Entry(Int(0), Int(1)), Entry(Int(0), Int(2));
            Same(Map([a, b]), Map([b, a])) && Encode(Canon(Map([a, b]))) != Encode(Canon(Map([b, a])))
  {
    hide Encode, Canon, Same, Fits;
    var a, b := Entry(Int(0), Int(1)), Entry(Int(0), Int(2));
    RepeatedKeyStays(a, b);
    RepeatedKeyStays(b, a);
    EncodeInjective(Map([a, b]), Map([b, a]));
    SwappedSame(a, b);
    assert [a, b][0] != [b, a][0];
  }
}
