/** What bytewise order of encoded keys means, and how every minted half is laid out. */
module KeyOrder {
  import opened Basics
  import opened ByteStrings
  import opened Cbor
  import opened UniqueDecoding
  import opened KeySort
  import opened Canonical
  import opened HalfPlaintext
  import opened HalfRoundTrip
  import opened HalfPrintParse

  /**
   * Non-negative integers ascending, then negative integers by magnitude, then texts by length
   * and then bytes.
   */
  ghost predicate KeyBefore(a: Value, b: Value)
  {
    match (a, b)
    case (Int(m), Int(n)) => if m >= 0 then n < 0 || m < n else n < m
    case (Int(_), Text(_)) => true
    case (Text(s), Text(t)) => |s| < |t| || (|s| == |t| && LexLt(s, t))
    case (_, _) => false
  }

  lemma FirstByteDecides(a: seq<byte>, b: seq<byte>)
    requires |a| > 0 && |b| > 0 && a[0] < b[0]
    ensures LexLt(a, b)
  {
  }

  /** Shortest heads compare by major type and then by argument, whatever follows them. */
  lemma HeadOrder(m1: nat, n1: nat, x: seq<byte>, m2: nat, n2: nat, y: seq<byte>)
    requires m1 < 8 && m2 < 8 && n1 < TWO_64 && n2 < TWO_64
    requires m1 < m2 || (m1 == m2 && n1 < n2)
    ensures LexLt(EncodeHead(m1, n1) + x, EncodeHead(m2, n2) + y)
  {
    hide LexLe, BigEndian;
    var h1, h2 := EncodeHead(m1, n1), EncodeHead(m2, n2);
    assert (h1 + x)[0] == h1[0] && (h2 + y)[0] == h2[0];
    if h1[0] < h2[0] {
      FirstByteDecides(h1 + x, h2 + y);
    } else {
      var w := ArgWidth(ShortestInfo(n1));
      assert n2 < Pow256(w) by { Pow256Values(); }
      BigEndianOrder(n1, n2, w);
      LexPrefix([h1[0]], BigEndian(n1, w), BigEndian(n2, w));
      assert h1[1..] == BigEndian(n1, w) && h2[1..] == BigEndian(n2, w);
      LexSameLength(h1, h2, x, y);
      assert (h1 + x)[..|h1|] == h1 && (h2 + y)[..|h2|] == h2;
    }
  }

  lemma KeyParts(k: Value) returns (major: nat, arg: nat, content: seq<byte>)
    requires IsIntOrText(k) && Fits(k)
    ensures major < 8 && arg < TWO_64 && Encode(k) == EncodeHead(major, arg) + content
    ensures k.Int? && k.n >= 0 ==> major == 0 && arg == k.n && |content| == 0
    ensures k.Int? && k.n < 0 ==> major == 1 && arg == -1 - k.n && |content| == 0
    ensures k.Text? ==> major == 3 && arg == |k.text| && content == k.text
  {
    hide EncodeHead;
    if k.Int? {
      if k.n >= 0 { major, arg, content := 0, k.n, []; } else { major, arg, content := 1, -1 - k.n, []; }
      assert EncodeHead(major, arg) + [] == EncodeHead(major, arg);
    } else {
      major, arg, content := 3, |k.text|, k.text;
    }
  }

  lemma KeyBeforeEncodes(a: Value, b: Value)
    requires IsIntOrText(a) && IsIntOrText(b) && Fits(a) && Fits(b) && KeyBefore(a, b)
    ensures LexLt(Encode(a), Encode(b))
  {
    hide LexLe, EncodeHead;
    var m1, n1, x := KeyParts(a);
    var m2, n2, y := KeyParts(b);
    if m1 < m2 || n1 < n2 {
      HeadOrder(m1, n1, x, m2, n2, y);
    } else {
      LexPrefix(EncodeHead(m1, n1), x, y);
      if Encode(a) == Encode(b) { EncodeInjective(a, b); }
    }
  }

  /** Bytewise order of encoded integer and text keys is exactly `KeyBefore`. */
  lemma EncodedKeyOrder(a: Value, b: Value)
    requires IsIntOrText(a) && IsIntOrText(b) && Fits(a) && Fits(b)
    ensures LexLt(Encode(a), Encode(b)) <==> KeyBefore(a, b)
  {
    hide LexLe, Encode;
    if KeyBefore(a, b) {
      KeyBeforeEncodes(a, b);
    } else if a != b {
      if a.Text? && b.Text? && |a.text| == |b.text| { LexTotal(a.text, b.text); }
      KeyBeforeEncodes(b, a);
      if LexLe(Encode(a), Encode(b)) { LexAntisym(Encode(a), Encode(b)); }
    }
  }

  /** In sorted entries no later key comes before an earlier one. */
  lemma SortedFollowsKeyOrder(es: seq<Entry>, i: nat, j: nat)
    requires Sorted(es) && i < j < |es|
    requires IsIntOrText(es[i].key) && IsIntOrText(es[j].key) && Fits(es[i].key) && Fits(es[j].key)
    ensures !KeyBefore(es[j].key, es[i].key)
  {
    hide LexLe, Encode, Sorted, KeyBefore;
    SortedPairs(es, i, j);
    EncodedKeyOrder(es[j].key, es[i].key);
    if LexLe(Encode(es[j].key), Encode(es[i].key)) { LexAntisym(Encode(es[i].key), Encode(es[j].key)); }
  }

  // ---- layout ---------------------------------------------------------------------------------

  function KeyMajor(e: Entry): (major: nat)
    ensures major < 8
  {
    KeyBytes(e)[0] / 32
  }

  /** What the major type of a key's encoding says about the key. */
  lemma MajorOfKey(e: Entry)
    ensures KeyMajor(e) == 0 <==> e.key.Int? && e.key.n >= 0
    ensures KeyMajor(e) == 1 <==> e.key.Int? && e.key.n < 0
    ensures KeyMajor(e) == 2 <==> e.key.Bytes?
    ensures KeyMajor(e) == 3 <==> e.key.Text?
    ensures KeyMajor(e) == 4 <==> e.key.Array?
    ensures KeyMajor(e) == 5 <==> e.key.Map?
    ensures KeyMajor(e) == 6 <==> e.key.Tag?
  {
    hide EncodeItems, EncodeEntries, BigEndian;
  }

  /** The entries whose keys have this major type, in order. */
  function OfMajor(es: seq<Entry>, major: nat): (r: seq<Entry>)
  {
    if |es| == 0 then []
    else
      var last := es[|es| - 1];
      OfMajor(es[..|es| - 1], major) + (if KeyMajor(last) == major then [last] else [])
  }

  lemma {:induction false} OfMajorMembers(es: seq<Entry>, major: nat, e: Entry)
    ensures e in OfMajor(es, major) <==> e in es && KeyMajor(e) == major
  {
    hide KeyMajor;
    if |es| > 0 {
      var front, last := es[..|es| - 1], es[|es| - 1];
      assert es == front + [last];
      OfMajorMembers(front, major, e);
    }
  }

  /** Sorted runs of entries, one for each major type from `major` up. */
  function MajorRuns(es: seq<Entry>, major: nat): (r: seq<Entry>)
    requires major <= 8
    decreases 8 - major
  {
    if major == 8 then [] else Sort(OfMajor(es, major)) + MajorRuns(es, major + 1)
  }

  lemma {:induction false} WithKeyConcat(a: seq<Entry>, b: seq<Entry>, k: seq<byte>)
    ensures WithKey(a + b, k) == WithKey(a, k) + WithKey(b, k)
  {
    hide KeyBytes;
    if |b| == 0 {
      assert a + b == a;
    } else {
      assert (a + b)[..|a + b| - 1] == a + b[..|b| - 1];
      WithKeyConcat(a, b[..|b| - 1], k);
    }
  }

  lemma {:induction false} WithKeyOfMajor(es: seq<Entry>, major: nat, k: seq<byte>)
    ensures WithKey(OfMajor(es, major), k) == if |k| > 0 && k[0] / 32 == major then WithKey(es, k) else []
  {
    hide KeyBytes;
    if |es| > 0 {
      var front, last := es[..|es| - 1], es[|es| - 1];
      WithKeyOfMajor(front, major, k);
      WithKeyConcat(OfMajor(front, major), if KeyMajor(last) == major then [last] else [], k);
    }
  }

  lemma NoEntriesWithKey(k: seq<byte>)
    ensures |WithKey([], k)| == 0
  {
  }

  lemma {:induction false} RunsStable(es: seq<Entry>, major: nat, k: seq<byte>)
    requires major <= 8
    ensures WithKey(MajorRuns(es, major), k) == if |k| > 0 && k[0] / 32 >= major then WithKey(es, k) else []
    decreases 8 - major
  {
    hide KeyBytes, Sort, OfMajor, WithKey;
    if major < 8 {
      WithKeyConcat(Sort(OfMajor(es, major)), MajorRuns(es, major + 1), k);
      SortStable(OfMajor(es, major), k);
      WithKeyOfMajor(es, major, k);
      RunsStable(es, major + 1, k);
    } else {
      assert |WithKey([], k)| == 0 by { NoEntriesWithKey(k); }
    }
  }

  lemma {:induction false} RunsMembers(es: seq<Entry>, major: nat)
    requires major <= 8
    ensures forall e :: e in MajorRuns(es, major) ==> KeyMajor(e) >= major
    decreases 8 - major
  {
    hide KeyBytes, Sort, OfMajor, KeyMajor;
    if major < 8 {
      RunsMembers(es, major + 1);
      forall e | e in Sort(OfMajor(es, major))
        ensures KeyMajor(e) == major
      {
        SortMembers(OfMajor(es, major), e);
        OfMajorMembers(es, major, e);
      }
    }
  }

  lemma SortedConcat(a: seq<Entry>, b: seq<Entry>)
    requires Sorted(a) && Sorted(b)
    requires forall d, e :: d in a && e in b ==> KeyBytes(d)[0] < KeyBytes(e)[0]
    ensures Sorted(a + b)
  {
    hide KeyBytes, LexLe;
    forall i | 0 < i < |a + b|
      ensures LexLe(KeyBytes((a + b)[i - 1]), KeyBytes((a + b)[i]))
    {
      if i == |a| {
        assert a[i - 1] in a && b[0] in b;
        FirstByteDecides(KeyBytes(a[i - 1]), KeyBytes(b[0]));
      }
    }
  }

  lemma {:induction false} RunsSorted(es: seq<Entry>, major: nat)
    requires major <= 8
    ensures Sorted(MajorRuns(es, major))
    decreases 8 - major
  {
    hide KeyBytes, Sort, OfMajor, LexLe;
    if major < 8 {
      var run, rest := Sort(OfMajor(es, major)), MajorRuns(es, major + 1);
      SortSorted(OfMajor(es, major));
      RunsSorted(es, major + 1);
      RunsMembers(es, major + 1);
      forall d, e | d in run && e in rest
        ensures KeyBytes(d)[0] < KeyBytes(e)[0]
      {
        SortMembers(OfMajor(es, major), d);
        OfMajorMembers(es, major, d);
        assert KeyMajor(d) == major < KeyMajor(e);
      }
      SortedConcat(run, rest);
    }
  }

  lemma {:induction false} NoEmptyKey(es: seq<Entry>)
    ensures |WithKey(es, [])| == 0
  {
    hide KeyBytes;
    if |es| > 0 { NoEmptyKey(es[..|es| - 1]); }
  }

  /** Sorting by encoded keys is sorting within each major type, one type after another. */
  lemma SortByMajor(es: seq<Entry>)
    ensures Sort(es) == MajorRuns(es, 0)
  {
    hide KeyBytes, Sort, MajorRuns, WithKey, Sorted;
    forall k
      ensures WithKey(Sort(es), k) == WithKey(MajorRuns(es, 0), k)
    {
      SortStable(es, k);
      RunsStable(es, 0, k);
      if |k| == 0 { NoEmptyKey(es); }
    }
    SortSorted(es);
    RunsSorted(es, 0);
    SortedStableUnique(Sort(es), MajorRuns(es, 0));
  }

  lemma {:induction false} OfMajorConcat(a: seq<Entry>, b: seq<Entry>, major: nat)
    ensures OfMajor(a + b, major) == OfMajor(a, major) + OfMajor(b, major)
  {
    hide KeyMajor;
    if |b| == 0 {
      assert a + b == a;
    } else {
      assert (a + b)[..|a + b| - 1] == a + b[..|b| - 1];
      OfMajorConcat(a, b[..|b| - 1], major);
    }
  }

  lemma {:induction false} OfOneMajor(es: seq<Entry>, major: nat)
    requires forall e :: e in es ==> KeyMajor(e) == major
    ensures OfMajor(es, major) == es
  {
    hide KeyMajor;
    if |es| > 0 {
      OfOneMajor(es[..|es| - 1], major);
    }
  }

  lemma OfNoMajor(es: seq<Entry>, major: nat)
    requires forall e :: e in es ==> KeyMajor(e) != major
    ensures |OfMajor(es, major)| == 0
  {
    hide KeyMajor;
    if |OfMajor(es, major)| > 0 {
      OfMajorMembers(es, major, OfMajor(es, major)[0]);
      assert false;
    }
  }

  /** Entries of a lower major type leave the runs alone. */
  lemma {:induction false} RunsIgnoreLower(a: seq<Entry>, b: seq<Entry>, major: nat)
    requires major <= 8 && forall e :: e in b ==> KeyMajor(e) < major
    ensures MajorRuns(a + b, major) == MajorRuns(a, major)
    decreases 8 - major
  {
    hide KeyMajor, OfMajor, Sort;
    if major < 8 {
      OfMajorConcat(a, b, major);
      OfNoMajor(b, major);
      assert OfMajor(a, major) + OfMajor(b, major) == OfMajor(a, major);
      RunsIgnoreLower(a, b, major + 1);
    }
  }

  lemma ReservedSorted(f: MandateFields)
    ensures Sorted(ReservedEntries(f)) && forall e :: e in ReservedEntries(f) ==> KeyMajor(e) == 1
  {
    hide ReservedEntries, Encode;
    ReservedKeysDown(f);
    ReservedKeysDistinct(f);
    var es := ReservedEntries(f);
    forall i | 0 < i < |es|
      ensures LexLe(KeyBytes(es[i - 1]), KeyBytes(es[i]))
    {
      assert es[i - 1] in es && es[i] in es;
      assert es[i - 1].key == Int(es[i - 1].key.n) && es[i].key == Int(es[i].key.n);
      SmallNegativeKey(es[i - 1].key.n);
      SmallNegativeKey(es[i].key.n);
    }
  }

  lemma {:induction false} EncodeEntriesConcat(a: seq<Entry>, b: seq<Entry>)
    ensures EncodeEntries(a + b) == EncodeEntries(a) + EncodeEntries(b)
  {
    hide Encode;
    if |a| == 0 {
      assert a + b == b;
    } else {
      assert (a + b)[1..] == a[1..] + b;
      EncodeEntriesConcat(a[1..], b);
      Reassociate(Encode(a[0].key) + Encode(a[0].val), EncodeEntries(a[1..]), EncodeEntries(b));
    }
  }

  lemma NoParts(a: seq<Entry>, b: seq<Entry>)
    ensures |a| == 0 ==> a + b == b
    ensures |b| == 0 ==> a + b == a
  {
  }

  lemma OutsideMajor(e: Entry)
    requires OutsideReserved(e.key)
    ensures KeyMajor(e) != 1
  {
    hide KeyMajor;
    MajorOfKey(e);
  }

  lemma RunsUnfold(es: seq<Entry>, major: nat)
    requires major < 8
    ensures MajorRuns(es, major) == Sort(OfMajor(es, major)) + MajorRuns(es, major + 1)
  {
  }

  /** The runs of pushed entries: the application's integers, the reserved fields, the rest. */
  lemma PushedRuns(app: seq<Entry>, f: MandateFields)
    requires forall e :: e in app ==> OutsideReserved(e.key)
    ensures var res := ReservedEntries(f);
            MajorRuns(app + res, 0) == Sort(OfMajor(app, 0)) + (res + MajorRuns(app, 2))
  {
    hide KeyMajor, OfMajor, Sort, ReservedEntries, Sorted, OutsideReserved, MajorRuns;
    var res := ReservedEntries(f);
    ReservedSorted(f);
    SortOfSorted(res);
    forall e | e in app
      ensures KeyMajor(e) != 1
    {
      OutsideMajor(e);
    }
    OfMajorConcat(app, res, 0);
    OfNoMajor(res, 0);
    NoParts(OfMajor(app, 0), OfMajor(res, 0));
    OfMajorConcat(app, res, 1);
    OfNoMajor(app, 1);
    OfOneMajor(res, 1);
    NoParts(OfMajor(app, 1), res);
    RunsIgnoreLower(app, res, 2);
    RunsUnfold(app + res, 0);
    RunsUnfold(app + res, 1);
  }

  lemma EntriesOfParts(f: MandateFields)
    ensures EntriesOf(f) == f.app + ReservedEntries(f)
  {
  }

  lemma CanonKeepsInts(v: Value)
    ensures Canon(v).Int? ==> Canon(v) == v
  {
    hide Sort;
  }

  lemma CanonOutsideReserved(app: seq<Entry>)
    requires AppEntries(Map(app)).Ok?
    ensures forall e :: e in app ==> OutsideReserved(e.key)
    ensures forall e :: e in CanonEntries(app) ==> OutsideReserved(e.key)
  {
    hide Encode, IsNegativeInt, ContainsNan, CanonEntries;
    forall i | 0 <= i < |app|
      ensures OutsideReserved(app[i].key) && OutsideReserved(CanonEntries(app)[i].key)
    {
      assert !IsNegativeInt(app[i].key);
      NegativeIntByLeadingByte(app[i].key);
      assert CanonEntries(app)[i].key == Canon(app[i].key);
      CanonKeepsInts(app[i].key);
    }
  }

  /**
   * Every half that mints is one map head followed by the application's integer keys in ascending
   * order, the reserved fields in the order tid, exp, aud, sub, iss, and the application's other
   * keys by major type, sorted within each.
   */
  lemma MintedLayout(f: MandateFields)
    requires AppEntries(Map(f.app)).Ok?
    ensures var app := CanonEntries(f.app);
            Assemble(EntriesOf(f))
            == EncodeHead(5, |EntriesOf(f)|) + (EncodeEntries(Sort(OfMajor(app, 0)))
               + (EncodeEntries(ReservedEntries(f)) + EncodeEntries(MajorRuns(app, 2))))
  {
    hide Sort, ReservedEntries, OfMajor, CanonEntries, EncodeHead, EncodeEntries, EntriesOf, MajorRuns, AppEntries;
    hide OutsideReserved;
    var app, res := CanonEntries(f.app), ReservedEntries(f);
    CanonOutsideReserved(f.app);
    CanonEntriesOf(f);
    ReservedIgnoresApp(f, app);
    assert CanonEntries(EntriesOf(f)) == app + res by { EntriesOfParts(f.(app := app)); }
    SortByMajor(app + res);
    PushedRuns(app, f);
    EncodeEntriesConcat(Sort(OfMajor(app, 0)), res + MajorRuns(app, 2));
    EncodeEntriesConcat(res, MajorRuns(app, 2));
  }

  lemma EmptyRun(es: seq<Entry>, major: nat)
    requires major < 8 && |OfMajor(es, major)| == 0
    ensures MajorRuns(es, major) == MajorRuns(es, major + 1)
  {
  }

  lemma NoRuns(es: seq<Entry>)
    ensures |MajorRuns(es, 8)| == 0
  {
  }

  /** For integer and text keys the rest is the texts, by length and then by bytes. */
  lemma AppRunsAreTexts(app: seq<Entry>)
    requires forall e :: e in app ==> IsAppKey(e.key)
    ensures MajorRuns(app, 2) == Sort(OfMajor(app, 3))
    ensures forall e :: e in OfMajor(app, 0) ==> e.key.Int?
    ensures forall e :: e in OfMajor(app, 3) ==> e.key.Text?
  {
    hide KeyMajor, OfMajor, Sort, MajorRuns;
    forall e
      ensures KeyMajor(e) == 0 ==> e.key.Int?
      ensures KeyMajor(e) == 3 ==> e.key.Text?
      ensures e in app ==> KeyMajor(e) in {0, 3}
      ensures e in OfMajor(app, 0) ==> KeyMajor(e) == 0
      ensures e in OfMajor(app, 3) ==> KeyMajor(e) == 3
    {
      MajorOfKey(e);
      OfMajorMembers(app, 0, e);
      OfMajorMembers(app, 3, e);
    }
    forall m: nat | m != 0 && m != 3
      ensures |OfMajor(app, m)| == 0
    {
      OfNoMajor(app, m);
    }
    EmptyRun(app, 2);
    RunsUnfold(app, 3);
    EmptyRun(app, 4);
    EmptyRun(app, 5);
    EmptyRun(app, 6);
    EmptyRun(app, 7);
    assert |MajorRuns(app, 8)| == 0 by { NoRuns(app); }
    NoParts(Sort(OfMajor(app, 3)), MajorRuns(app, 4));
  }

  // ---- size -----------------------------------------------------------------------------------

  lemma EncodedEntry(e: Entry)
    ensures |EncodeEntries([e])| == |Encode(e.key)| + |Encode(e.val)|
  {
    hide Encode;
    assert [e][1..] == [];
  }

  lemma {:induction false} InsertKeepsSize(es: seq<Entry>, e: Entry)
    ensures |EncodeEntries(Insert(es, e))| == |EncodeEntries(es)| + |EncodeEntries([e])|
  {
    hide KeyBytes, EncodeEntries, LexLe;
    if |es| == 0 {
      EncodeEntriesConcat(es, [e]);
      assert es + [e] == [e];
    } else {
      var front, last := es[..|es| - 1], es[|es| - 1];
      assert es == front + [last];
      EncodeEntriesConcat(es, [e]);
      EncodeEntriesConcat(front, [last]);
      InsertKeepsSize(front, e);
      EncodeEntriesConcat(Insert(front, e), [last]);
    }
  }

  lemma {:induction false} SortKeepsSize(es: seq<Entry>)
    ensures |EncodeEntries(Sort(es))| == |EncodeEntries(es)|
  {
    hide EncodeEntries, Insert;
    if |es| > 0 {
      var front, last := es[..|es| - 1], es[|es| - 1];
      assert es == front + [last];
      SortKeepsSize(front);
      InsertKeepsSize(Sort(front), last);
      EncodeEntriesConcat(front, [last]);
    }
  }

  lemma {:induction false} CanonEntriesKeepSize(es: seq<Entry>)
    ensures |EncodeEntries(CanonEntries(es))| == |EncodeEntries(es)|
    decreases es, 1
  {
    hide Encode, Canon;
    if |es| > 0 {
      assert es decreases to es[0];
      CanonKeepsSize(es[0].key);
      CanonKeepsSize(es[0].val);
      CanonEntriesKeepSize(es[1..]);
      assert CanonEntries(es)[1..] == CanonEntries(es[1..]);
    }
  }

  /** Canonicalizing changes the order of bytes and never their number. */
  lemma {:induction false} CanonKeepsSize(v: Value)
    ensures |Encode(Canon(v))| == |Encode(v)|
    decreases v, 0
  {
    hide Sort, EncodeHead, EncodeFloat;
    match v
    case Array(items) => CanonItemsKeepSize(items);
    case Map(entries) =>
      CanonEntriesKeepSize(entries);
      SortKeepsSize(CanonEntries(entries));
    case Tag(_, inner) => CanonKeepsSize(inner);
    case _ =>
  }

  lemma {:induction false} CanonItemsKeepSize(items: seq<Value>)
    ensures |EncodeItems(CanonItems(items))| == |EncodeItems(items)|
    decreases items, 1
  {
    hide Encode, Canon;
    if |items| > 0 {
      CanonKeepsSize(items[0]);
      CanonItemsKeepSize(items[1..]);
      assert CanonItems(items)[1..] == CanonItems(items[1..]);
    }
  }

  /** A minted plaintext is as long as what was pushed. */
  lemma AssembledSize(f: MandateFields)
    ensures |Assemble(EntriesOf(f))|
         == |EncodeHead(5, |EntriesOf(f)|)| + |EncodeEntries(f.app)| + |EncodeEntries(ReservedEntries(f))|
  {
    hide EncodeHead, EncodeEntries, EntriesOf, ReservedEntries, Canon;
    CanonKeepsSize(Map(EntriesOf(f)));
    EntriesOfParts(f);
    EncodeEntriesConcat(f.app, ReservedEntries(f));
  }
}
