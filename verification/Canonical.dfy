/**
 * Canonical form: every map sorted by its keys' encoded bytes, depth first, keys included
 * (RFC 8949 section 4.2.1).
 */
module Canonical {
  import opened Floats
  import opened Cbor
  import opened KeySort

  function CanonEntry(e: Entry): (r: Entry)
  {
    Entry(Canon(e.key), Canon(e.val))
  }

  function CanonEntries(entries: seq<Entry>): (r: seq<Entry>)
    ensures |r| == |entries|
    ensures forall i :: 0 <= i < |entries| ==> r[i] == CanonEntry(entries[i])
  {
    if |entries| == 0 then []
    else
      assert entries decreases to entries[0];
      [CanonEntry(entries[0])] + CanonEntries(entries[1..])
  }

  function Canon(v: Value): (r: Value)
  {
    match v
    case Array(items) => Array(CanonItems(items))
    case Map(entries) => Map(Sort(CanonEntries(entries)))
    case Tag(t, inner) => Tag(t, Canon(inner))
    case _ => v
  }

  function CanonItems(items: seq<Value>): (r: seq<Value>)
    ensures |r| == |items|
    ensures forall i :: 0 <= i < |items| ==> r[i] == Canon(items[i])
  {
    if |items| == 0 then [] else [Canon(items[0])] + CanonItems(items[1..])
  }

  /** Every map at every depth, keys included, is sorted. */
  ghost predicate SortedDeep(v: Value)
  {
    match v
    case Array(items) => forall x :: x in items ==> SortedDeep(x)
    case Map(entries) => Sorted(entries) && forall e :: e in entries ==> SortedDeepEntry(e)
    case Tag(_, inner) => SortedDeep(inner)
    case _ => true
  }

  ghost predicate SortedDeepEntry(e: Entry)
  {
    SortedDeep(e.key) && SortedDeep(e.val)
  }

  lemma {:induction false} CanonSortedDeep(v: Value)
    ensures SortedDeep(Canon(v))
  {
    hide Sort, Sorted;
    match v
    case Array(items) =>
      forall x | x in items
        ensures SortedDeep(Canon(x))
      {
        CanonSortedDeep(x);
      }
    case Map(entries) =>
      SortSorted(CanonEntries(entries));
      forall e | e in Sort(CanonEntries(entries))
        ensures SortedDeepEntry(e)
      {
        SortMembers(CanonEntries(entries), e);
        var i :| 0 <= i < |entries| && e == CanonEntry(entries[i]);
        assert entries decreases to entries[i];
        CanonSortedDeep(entries[i].key);
        CanonSortedDeep(entries[i].val);
      }
    case Tag(_, inner) => CanonSortedDeep(inner);
    case _ =>
  }

  /** Canonical values are left alone; with `CanonSortedDeep`, a second pass changes nothing. */
  lemma {:induction false} CanonFixed(v: Value)
    requires SortedDeep(v)
    ensures Canon(v) == v
  {
    hide Sort, Sorted;
    match v
    case Array(items) =>
      forall i | 0 <= i < |items|
        ensures Canon(items[i]) == items[i]
      {
        CanonFixed(items[i]);
      }
      assert CanonItems(items) == items;
    case Map(entries) =>
      forall i | 0 <= i < |entries|
        ensures CanonEntry(entries[i]) == entries[i]
      {
        assert entries decreases to entries[i];
        assert SortedDeepEntry(entries[i]);
        CanonFixed(entries[i].key);
        CanonFixed(entries[i].val);
      }
      assert CanonEntries(entries) == entries;
      SortOfSorted(entries);
    case Tag(_, inner) => CanonFixed(inner);
    case _ =>
  }

  lemma CanonIdempotent(v: Value)
    ensures Canon(Canon(v)) == Canon(v)
  {
    CanonSortedDeep(v);
    CanonFixed(Canon(v));
  }

  // ---- what a half may contain ----------------------------------------------------------------

  predicate ContainsNan(v: Value)
  {
    match v
    case Float(bits) => IsNan(bits)
    case Array(items) => exists x :: x in items && ContainsNan(x)
    case Map(entries) => exists e :: e in entries && EntryContainsNan(e)
    case Tag(_, inner) => ContainsNan(inner)
    case _ => false
  }

  predicate EntryContainsNan(e: Entry)
  {
    ContainsNan(e.key) || ContainsNan(e.val)
  }

  predicate IsIntOrText(v: Value)
  {
    v.Int? || v.Text?
  }

  predicate HasInvalidMapKey(v: Value)
  {
    match v
    case Map(entries) => exists e :: e in entries && EntryInvalid(e)
    case Array(items) => exists x :: x in items && HasInvalidMapKey(x)
    case Tag(_, inner) => HasInvalidMapKey(inner)
    case _ => false
  }

  predicate EntryInvalid(e: Entry)
  {
    !IsIntOrText(e.key) || HasInvalidMapKey(e.val)
  }

  /** Canonicalizing neither adds nor removes a NaN or a disallowed key. */
  lemma {:induction false} CanonClean(v: Value)
    ensures ContainsNan(Canon(v)) <==> ContainsNan(v)
    ensures HasInvalidMapKey(Canon(v)) <==> HasInvalidMapKey(v)
  {
    hide Sort, Sorted, IsNan, EntryContainsNan, EntryInvalid, CanonEntry;
    match v
    case Array(items) =>
      var canon := CanonItems(items);
      forall i | 0 <= i < |items|
        ensures ContainsNan(canon[i]) <==> ContainsNan(items[i])
        ensures HasInvalidMapKey(canon[i]) <==> HasInvalidMapKey(items[i])
        ensures canon[i] in canon && items[i] in items
      {
        CanonClean(items[i]);
      }
    case Map(entries) =>
      var canon := CanonEntries(entries);
      forall i | 0 <= i < |entries|
        ensures EntryContainsNan(canon[i]) <==> EntryContainsNan(entries[i])
        ensures EntryInvalid(canon[i]) <==> EntryInvalid(entries[i])
        ensures canon[i] in canon && entries[i] in entries
      {
        assert entries decreases to entries[i];
        CanonCleanEntry(entries[i]);
      }
      forall e
        ensures e in Sort(canon) <==> e in canon
      {
        SortMembers(canon, e);
      }
      assert Canon(v) == Map(Sort(canon));
    case Tag(_, inner) => CanonClean(inner);
    case _ =>
  }

  lemma {:induction false} CanonCleanEntry(e: Entry)
    ensures EntryContainsNan(CanonEntry(e)) <==> EntryContainsNan(e)
    ensures EntryInvalid(CanonEntry(e)) <==> EntryInvalid(e)
  {
    CanonClean(e.key);
    CanonClean(e.val);
  }

  // ---- canonicalizing in place ----------------------------------------------------------------

  /** Canonicalizes each entry where it is, then sorts the entries where they are. */
  method Canonicalize(value: Value) returns (canonical: Value)
    ensures canonical == Canon(value)
  {
    hide Sort;
    match value {
      case Map(entries) =>
        var slots := new Entry[|entries|](i requires 0 <= i < |entries| => entries[i]);
        for i := 0 to slots.Length
          invariant forall j :: 0 <= j < i ==> slots[j] == CanonEntry(entries[j])
          invariant forall j :: i <= j < |entries| ==> slots[j] == entries[j]
        {
          assert entries decreases to entries[i];
          var key := Canonicalize(slots[i].key);
          var val := Canonicalize(slots[i].val);
          slots[i] := Entry(key, val);
        }
        assert slots[..] == CanonEntries(entries);
        SortByEncodedKey(slots);
        canonical := Map(slots[..]);
      case Array(items) =>
        var slots := new Value[|items|](i requires 0 <= i < |items| => items[i]);
        for i := 0 to slots.Length
          invariant forall j :: 0 <= j < i ==> slots[j] == Canon(items[j])
          invariant forall j :: i <= j < |items| ==> slots[j] == items[j]
        {
          var item := Canonicalize(slots[i]);
          slots[i] := item;
        }
        assert slots[..] == CanonItems(items);
        canonical := Array(slots[..]);
      case Tag(t, inner) =>
        var c := Canonicalize(inner);
        canonical := Tag(t, c);
      case _ =>
        canonical := value;
    }
  }
}
