/** Stable sorting of map entries by the bytewise order of their encoded keys. */
module KeySort {
  import opened Basics
  import opened ByteStrings
  import opened Cbor

  function KeyBytes(e: Entry): (r: seq<byte>)
    ensures |r| > 0
  {
    Encode(e.key)
  }

  predicate Sorted(es: seq<Entry>)
  {
    forall i :: 0 < i < |es| ==> LexLe(KeyBytes(es[i - 1]), KeyBytes(es[i]))
  }

  predicate DistinctKeys(es: seq<Entry>)
  {
    forall i, j :: 0 <= i < j < |es| ==> KeyBytes(es[i]) != KeyBytes(es[j])
  }

  /** Walks `e` in from the back, past every entry with a larger key. */
  function Insert(es: seq<Entry>, e: Entry): (r: seq<Entry>)
    ensures |r| == |es| + 1
  {
    if |es| == 0 then [e]
    else
      var last := es[|es| - 1];
      if LexLe(KeyBytes(last), KeyBytes(e)) then es + [e]
      else Insert(es[..|es| - 1], e) + [last]
  }

  function Sort(es: seq<Entry>): (r: seq<Entry>)
    ensures |r| == |es|
  {
    if |es| == 0 then [] else Insert(Sort(es[..|es| - 1]), es[|es| - 1])
  }

  /** The entries whose key encodes to `k`, in order. */
  function WithKey(es: seq<Entry>, k: seq<byte>): (r: seq<Entry>)
  {
    if |es| == 0 then []
    else
      var last := es[|es| - 1];
      WithKey(es[..|es| - 1], k) + (if KeyBytes(last) == k then [last] else [])
  }

  // ---- what sorting produces ------------------------------------------------------------------

  lemma {:induction false} InsertSorted(es: seq<Entry>, e: Entry)
    requires Sorted(es)
    ensures Sorted(Insert(es, e))
    ensures Insert(es, e)[|es|] == e || (|es| > 0 && Insert(es, e)[|es|] == es[|es| - 1])
  {
    hide KeyBytes;
    if |es| > 0 {
      var front, last := es[..|es| - 1], es[|es| - 1];
      if !LexLe(KeyBytes(last), KeyBytes(e)) {
        InsertSorted(front, e);
        LexTotal(KeyBytes(last), KeyBytes(e));
      }
    }
  }

  lemma {:induction false} SortSorted(es: seq<Entry>)
    ensures Sorted(Sort(es))
  {
    if |es| > 0 {
      SortSorted(es[..|es| - 1]);
      InsertSorted(Sort(es[..|es| - 1]), es[|es| - 1]);
    }
  }

  lemma {:induction false} InsertMultiset(es: seq<Entry>, e: Entry)
    ensures multiset(Insert(es, e)) == multiset(es) + multiset{e}
  {
    hide KeyBytes, LexLe;
    if |es| > 0 {
      var front, last := es[..|es| - 1], es[|es| - 1];
      assert es == front + [last];
      InsertMultiset(front, e);
    }
  }

  lemma {:induction false} SortMultiset(es: seq<Entry>)
    ensures multiset(Sort(es)) == multiset(es)
  {
    if |es| > 0 {
      var front, last := es[..|es| - 1], es[|es| - 1];
      assert es == front + [last];
      SortMultiset(front);
      InsertMultiset(Sort(front), last);
    }
  }

  lemma SortMembers(es: seq<Entry>, e: Entry)
    ensures e in Sort(es) <==> e in es
  {
    SortMultiset(es);
    assert e in Sort(es) <==> e in multiset(Sort(es));
  }

  lemma {:induction false} InsertStable(es: seq<Entry>, e: Entry, k: seq<byte>)
    ensures WithKey(Insert(es, e), k) == WithKey(es, k) + (if KeyBytes(e) == k then [e] else [])
  {
    hide KeyBytes;
    if |es| == 0 {
    } else {
      var front, last := es[..|es| - 1], es[|es| - 1];
      if LexLe(KeyBytes(last), KeyBytes(e)) {
        assert (es + [e])[..|es|] == es;
      } else {
        LexRefl(KeyBytes(e));
        InsertStable(front, e, k);
        assert (Insert(front, e) + [last])[..|es|] == Insert(front, e);
      }
    }
  }

  /** Entries with the same key keep the order they came in. */
  lemma {:induction false} SortStable(es: seq<Entry>, k: seq<byte>)
    ensures WithKey(Sort(es), k) == WithKey(es, k)
  {
    hide KeyBytes, Insert;
    if |es| > 0 {
      SortStable(es[..|es| - 1], k);
      InsertStable(Sort(es[..|es| - 1]), es[|es| - 1], k);
    }
  }

  lemma {:induction false} SortedPairs(es: seq<Entry>, i: nat, j: nat)
    requires Sorted(es) && i <= j < |es|
    ensures LexLe(KeyBytes(es[i]), KeyBytes(es[j]))
    decreases j - i
  {
    hide KeyBytes, LexLe;
    if i == j {
      LexRefl(KeyBytes(es[i]));
    } else {
      SortedPairs(es, i, j - 1);
      assert LexLe(KeyBytes(es[j - 1]), KeyBytes(es[j]));
      LexTrans(KeyBytes(es[i]), KeyBytes(es[j - 1]), KeyBytes(es[j]));
    }
  }

  lemma {:induction false} WithKeyMember(es: seq<Entry>, k: seq<byte>) returns (i: nat)
    requires |WithKey(es, k)| > 0
    ensures i < |es| && KeyBytes(es[i]) == k
  {
    hide KeyBytes;
    if KeyBytes(es[|es| - 1]) == k {
      i := |es| - 1;
    } else {
      i := WithKeyMember(es[..|es| - 1], k);
    }
  }

  lemma LastHasItsKey(es: seq<Entry>)
    requires |es| > 0
    ensures var f := WithKey(es, KeyBytes(es[|es| - 1])); |f| > 0 && f[|f| - 1] == es[|es| - 1]
  {
    hide KeyBytes;
  }

  lemma KeyBound(es: seq<Entry>, k: seq<byte>)
    requires Sorted(es) && |WithKey(es, k)| > 0
    ensures |es| > 0 && LexLe(k, KeyBytes(es[|es| - 1]))
  {
    hide *;
    var i := WithKeyMember(es, k);
    SortedPairs(es, i, |es| - 1);
  }

  /** The largest key of one stable rearrangement is not beyond the largest key of another. */
  lemma LastKeyBound(xs: seq<Entry>, ys: seq<Entry>)
    requires Sorted(ys) && |xs| > 0
    requires WithKey(xs, KeyBytes(xs[|xs| - 1])) == WithKey(ys, KeyBytes(xs[|xs| - 1]))
    ensures |ys| > 0 && LexLe(KeyBytes(xs[|xs| - 1]), KeyBytes(ys[|ys| - 1]))
  {
    hide *;
    LastHasItsKey(xs);
    KeyBound(ys, KeyBytes(xs[|xs| - 1]));
  }

  lemma SortedFront(es: seq<Entry>)
    requires Sorted(es) && |es| > 0
    ensures Sorted(es[..|es| - 1])
  {
    hide KeyBytes, LexLe;
  }

  lemma AppendCancel<T>(a: seq<T>, b: seq<T>, tail: seq<T>)
    requires a + tail == b + tail
    ensures a == b
  {
    assert a == (a + tail)[..|a + tail| - |tail|];
    assert b == (b + tail)[..|b + tail| - |tail|];
  }

  lemma FrontGroups(xs: seq<Entry>, ys: seq<Entry>, k: seq<byte>)
    requires |xs| > 0 && |ys| > 0 && xs[|xs| - 1] == ys[|ys| - 1]
    requires WithKey(xs, k) == WithKey(ys, k)
    ensures WithKey(xs[..|xs| - 1], k) == WithKey(ys[..|ys| - 1], k)
  {
    hide KeyBytes;
    var tail := if KeyBytes(xs[|xs| - 1]) == k then [xs[|xs| - 1]] else [];
    AppendCancel(WithKey(xs[..|xs| - 1], k), WithKey(ys[..|ys| - 1], k), tail);
  }

  /** A sorted stable rearrangement is the only one: sortedness and stability pin the result down. */
  lemma {:induction false} SortedStableUnique(xs: seq<Entry>, ys: seq<Entry>)
    requires Sorted(xs) && Sorted(ys)
    requires forall k :: WithKey(xs, k) == WithKey(ys, k)
    ensures xs == ys
    decreases |xs| + |ys|
  {
    hide *;
    if |xs| > 0 { LastKeyBound(xs, ys); }
    if |ys| > 0 { LastKeyBound(ys, xs); }
    if |xs| > 0 && |ys| > 0 {
      LexAntisym(KeyBytes(xs[|xs| - 1]), KeyBytes(ys[|ys| - 1]));
      LastHasItsKey(xs);
      LastHasItsKey(ys);
      SortedFront(xs);
      SortedFront(ys);
      var fx, fy := xs[..|xs| - 1], ys[..|ys| - 1];
      forall k
        ensures WithKey(fx, k) == WithKey(fy, k)
      {
        FrontGroups(xs, ys, k);
      }
      SortedStableUnique(fx, fy);
      assert xs == fx + [xs[|xs| - 1]] && ys == fy + [ys[|ys| - 1]];
    }
  }

  // ---- distinct keys --------------------------------------------------------------------------

  lemma {:induction false} WithKeyCount(es: seq<Entry>, k: seq<byte>, e: Entry)
    ensures multiset(WithKey(es, k))[e] == if KeyBytes(e) == k then multiset(es)[e] else 0
  {
    hide KeyBytes;
    if |es| > 0 {
      var front, last := es[..|es| - 1], es[|es| - 1];
      assert es == front + [last];
      WithKeyCount(front, k, e);
      assert multiset(es) == multiset(front) + multiset{last};
    }
  }

  lemma {:induction false} WithKeyDistinct(es: seq<Entry>, k: seq<byte>)
    requires DistinctKeys(es)
    ensures |WithKey(es, k)| <= 1
  {
    hide KeyBytes;
    if |es| > 0 {
      var front := es[..|es| - 1];
      WithKeyDistinct(front, k);
      if KeyBytes(es[|es| - 1]) == k && |WithKey(front, k)| > 0 {
        var i := WithKeyMember(front, k);
        assert false;
      }
    }
  }

  lemma SameSingleton(a: seq<Entry>, b: seq<Entry>)
    requires |a| <= 1 && multiset(a) == multiset(b)
    ensures a == b
  {
    assert |multiset(a)| == |a| && |multiset(b)| == |b|;
    if |a| == 1 {
      assert a[0] in multiset(a);
      assert a[0] in b;
    }
  }

  /** With distinct keys, a rearrangement is a stable one. */
  lemma RearrangedWithKey(xs: seq<Entry>, ys: seq<Entry>, k: seq<byte>)
    requires DistinctKeys(xs) && multiset(xs) == multiset(ys)
    ensures WithKey(xs, k) == WithKey(ys, k)
  {
    forall e
      ensures multiset(WithKey(xs, k))[e] == multiset(WithKey(ys, k))[e]
    {
      WithKeyCount(xs, k, e);
      WithKeyCount(ys, k, e);
    }
    WithKeyDistinct(xs, k);
    SameSingleton(WithKey(xs, k), WithKey(ys, k));
  }

  /** Sorting forgets the order of entries with distinct keys: any sorted rearrangement is `Sort`. */
  lemma SortDistinct(xs: seq<Entry>, ys: seq<Entry>)
    requires DistinctKeys(xs) && multiset(xs) == multiset(ys) && Sorted(ys)
    ensures Sort(xs) == ys
  {
    forall k
      ensures WithKey(Sort(xs), k) == WithKey(ys, k)
    {
      SortStable(xs, k);
      RearrangedWithKey(xs, ys, k);
    }
    SortSorted(xs);
    SortedStableUnique(Sort(xs), ys);
  }

  /** Sorting what is sorted changes nothing. */
  lemma SortOfSorted(es: seq<Entry>)
    requires Sorted(es)
    ensures Sort(es) == es
  {
    forall k
      ensures WithKey(Sort(es), k) == WithKey(es, k)
    {
      SortStable(es, k);
    }
    SortSorted(es);
    SortedStableUnique(Sort(es), es);
  }

  lemma {:induction false} WithKeyOne(es: seq<Entry>, i: nat)
    requires i < |es|
    ensures |WithKey(es, KeyBytes(es[i]))| >= 1
  {
    hide KeyBytes;
    if i < |es| - 1 {
      WithKeyOne(es[..|es| - 1], i);
    }
  }

  lemma {:induction false} WithKeyTwo(es: seq<Entry>, i: nat, j: nat)
    requires i < j < |es| && KeyBytes(es[i]) == KeyBytes(es[j])
    ensures |WithKey(es, KeyBytes(es[i]))| >= 2
  {
    hide KeyBytes;
    if j < |es| - 1 {
      WithKeyTwo(es[..|es| - 1], i, j);
    } else {
      WithKeyOne(es[..|es| - 1], i);
    }
  }

  /** Distinctness survives rearrangement. */
  lemma DistinctRearranged(xs: seq<Entry>, ys: seq<Entry>)
    requires DistinctKeys(xs) && multiset(xs) == multiset(ys)
    ensures DistinctKeys(ys)
  {
    hide KeyBytes;
    forall i, j | 0 <= i < j < |ys|
      ensures KeyBytes(ys[i]) != KeyBytes(ys[j])
    {
      if KeyBytes(ys[i]) == KeyBytes(ys[j]) {
        var k := KeyBytes(ys[i]);
        RearrangedWithKey(xs, ys, k);
        WithKeyDistinct(xs, k);
        WithKeyTwo(ys, i, j);
      }
    }
  }

  // ---- the in-place sort ----------------------------------------------------------------------

  lemma InsertAppend(es: seq<Entry>, e: Entry, j: nat)
    requires 0 < j <= |es| && !LexLe(KeyBytes(es[j - 1]), KeyBytes(e))
    ensures Insert(es[..j], e) + es[j..] == Insert(es[..j - 1], e) + es[j - 1..]
  {
    hide KeyBytes;
    var a := es[..j];
    assert a[..|a| - 1] == es[..j - 1] && a[|a| - 1] == es[j - 1];
    assert es[j - 1..] == [es[j - 1]] + es[j..];
  }

  lemma SwapBack(es: seq<Entry>, e: Entry, behind: seq<Entry>, j: nat)
    requires 0 < j <= |es|
    ensures var s := es[..j] + [e] + es[j..] + behind;
            s[j - 1] == es[j - 1] && s[j] == e
            && s[j - 1 := s[j]][j := s[j - 1]] == es[..j - 1] + [e] + es[j - 1..] + behind
  {
  }

  lemma InsertStops(es: seq<Entry>, e: Entry, j: nat)
    requires j <= |es| && (j > 0 ==> LexLe(KeyBytes(es[j - 1]), KeyBytes(e)))
    requires Insert(es, e) == Insert(es[..j], e) + es[j..]
    ensures Insert(es, e) == es[..j] + [e] + es[j..]
  {
    hide KeyBytes, LexLe;
  }

  lemma SortEmpty(es: seq<Entry>)
    ensures es == Sort(es[..0]) + es[0..]
  {
  }

  lemma SortNext(es: seq<Entry>, i: nat)
    requires i < |es|
    ensures Sort(es[..i + 1]) == Insert(Sort(es[..i]), es[i])
  {
    assert es[..i + 1][..i] == es[..i];
  }

  /** Walks `a[i]` back into the sorted entries in front of it. */
  method InsertInPlace(a: array<Entry>, i: nat)
    requires i < a.Length
    modifies a
    ensures a[..] == Insert(old(a[..i]), old(a[i])) + old(a[i + 1..])
  {
    hide *;
    ghost var front, behind := a[..i], a[i + 1..];
    var e := a[i];
    var key := KeyBytes(e);
    var j := i;
    assert front[..i] == front && front[i..] == [];
    assert a[..] == front[..j] + [e] + front[j..] + behind;
    while j > 0 && !LexLe(KeyBytes(a[j - 1]), key)
      invariant 0 <= j <= i == |front|
      invariant a[..] == front[..j] + [e] + front[j..] + behind
      invariant Insert(front, e) == Insert(front[..j], e) + front[j..]
    {
      SwapBack(front, e, behind, j);
      assert a[..][j - 1] == front[j - 1];
      InsertAppend(front, e, j);
      ghost var before := a[..];
      a[j - 1], a[j] := a[j], a[j - 1];
      assert a[..] == before[j - 1 := before[j]][j := before[j - 1]];
      j := j - 1;
    }
    if j > 0 {
      SwapBack(front, e, behind, j);
      assert a[..][j - 1] == front[j - 1];
    }
    InsertStops(front, e, j);
  }

  lemma FrontAndRest(s: seq<Entry>, front: seq<Entry>, was: seq<Entry>, i: nat)
    requires |front| == i < |was| && s == front + was[i..]
    ensures s[..i] == front && s[i] == was[i] && s[i + 1..] == was[i + 1..]
  {
  }

  /** Sorts a map's entries where they are, by their encoded keys. */
  method SortByEncodedKey(a: array<Entry>)
    modifies a
    ensures a[..] == Sort(old(a[..]))
  {
    hide *;
    ghost var was := a[..];
    SortEmpty(was);
    for i := 0 to a.Length
      invariant a[..] == Sort(was[..i]) + was[i..]
    {
      SortNext(was, i);
      FrontAndRest(a[..], Sort(was[..i]), was, i);
      InsertInPlace(a, i);
    }
    assert was[..a.Length] == was;
  }
}
