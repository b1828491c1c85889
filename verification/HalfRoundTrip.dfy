/** Printing and parsing a half's plaintext undo each other. */
module HalfRoundTrip {
  import opened Basics
  import opened ByteStrings
  import opened Cbor
  import opened KeySort
  import opened Canonical
  import opened StrictDecoding
  import opened Types
  import opened HalfPlaintext

  // ---- the namespaces -------------------------------------------------------------------------

  predicate IsAppKey(k: Value)
  {
    k.Text? || (k.Int? && k.n >= 0)
  }

  /** Not in the protocol's namespace, whether or not a verifier would take it. */
  predicate OutsideReserved(k: Value)
  {
    k.Int? ==> k.n >= 0
  }

  lemma NegativeIntByLeadingByte(k: Value)
    ensures IsNegativeInt(k) <==> k.Int? && k.n < 0
    ensures Encode(k)[0] / 32 == 1 <==> k.Int? && k.n < 0
  {
    hide EncodeItems, EncodeEntries, BigEndian;
  }

  /** The sign of an integer key decides its namespace; texts are the application's. */
  lemma ClassifyBySign(k: Value)
    ensures Classify(k).App? <==> IsAppKey(k)
    ensures Classify(k).Invalid? <==> !IsIntOrText(k)
    ensures Classify(k).Reserved? <==> k.Int? && KEY_ISS <= k.n <= KEY_TID
    ensures Classify(k).UnknownReserved? <==> k.Int? && k.n < KEY_ISS
  {
    NegativeIntByLeadingByte(k);
  }

  lemma AudRoundTrip(aud: seq<Str>, v: Value)
    ensures ReadAud(v) == Ok(aud) <==> v == AudEntry(aud).val
  {
    if v == AudEntry(aud).val {
      assert ReadAud(v).value == aud;
    }
    if ReadAud(v) == Ok(aud) {
      forall i | 0 <= i < |aud|
        ensures v.items[i] == Text(aud[i])
      {
        assert v.items[i] in v.items;
        assert ReadAud(v).value[i] == v.items[i].text;
      }
      assert v.items == AudEntry(aud).val.items;
    }
  }

  // ---- reading partitions the entries ---------------------------------------------------------

  ghost function SlotCount(f: MandateFields, e: Entry): (n: nat)
  {
    (if f.tid.Some? && e == TidEntry(f.tid.value) then 1 else 0)
    + (if f.exp.Some? && e == ExpEntry(f.exp.value) then 1 else 0)
    + (if f.aud.Some? && e == AudEntry(f.aud.value) then 1 else 0)
    + (if f.sub.Some? && e == SubEntry(f.sub.value) then 1 else 0)
    + (if f.iss.Some? && e == IssEntry(f.iss.value) then 1 else 0)
  }

  lemma CountConcat(a: seq<Entry>, b: seq<Entry>, c: seq<Entry>, d: seq<Entry>, e: seq<Entry>, x: Entry)
    ensures multiset(a + b + c + d + e)[x]
         == multiset(a)[x] + multiset(b)[x] + multiset(c)[x] + multiset(d)[x] + multiset(e)[x]
  {
  }

  lemma CountIfPresent<T>(field: Option<T>, entry: T -> Entry, x: Entry)
    ensures multiset(IfPresent(field, entry))[x] == if field.Some? && x == entry(field.value) then 1 else 0
  {
  }

  lemma ReservedCount(f: MandateFields, x: Entry)
    ensures multiset(ReservedEntries(f))[x] == SlotCount(f, x)
  {
    hide TidEntry, ExpEntry, AudEntry, SubEntry, IssEntry, IfPresent;
    CountConcat(IfPresent(f.tid, TidEntry), IfPresent(f.exp, ExpEntry), IfPresent(f.aud, AudEntry),
                IfPresent(f.sub, SubEntry), IfPresent(f.iss, IssEntry), x);
    CountIfPresent(f.tid, TidEntry, x);
    CountIfPresent(f.exp, ExpEntry, x);
    CountIfPresent(f.aud, AudEntry, x);
    CountIfPresent(f.sub, SubEntry, x);
    CountIfPresent(f.iss, IssEntry, x);
  }

  lemma EntriesOfCount(f: MandateFields, x: Entry)
    ensures multiset(EntriesOf(f))[x] == multiset(f.app)[x] + SlotCount(f, x)
  {
    hide ReservedEntries, SlotCount;
    ReservedCount(f, x);
  }

  /** The field that `k` names, if any, has not been read. */
  ghost predicate SlotFree(f: MandateFields, k: Value)
  {
    && (k == Int(KEY_TID) ==> f.tid.None?)
    && (k == Int(KEY_EXP) ==> f.exp.None?)
    && (k == Int(KEY_AUD) ==> f.aud.None?)
    && (k == Int(KEY_SUB) ==> f.sub.None?)
    && (k == Int(KEY_ISS) ==> f.iss.None?)
  }

  ghost predicate SlotsFree(f: MandateFields, es: seq<Entry>)
  {
    forall e :: e in es ==> SlotFree(f, e.key)
  }

  lemma AudKey(aud: seq<Str>)
    ensures AudEntry(aud).key == Int(KEY_AUD) && AudEntry(aud) == Entry(Int(KEY_AUD), AudEntry(aud).val)
  {
  }

  lemma ReadEntryStep(f: MandateFields, e: Entry, x: Entry)
    requires ReadEntry(f, e).Ok? && SlotFree(f, e.key)
    ensures var f' := ReadEntry(f, e).value;
            multiset(f'.app)[x] + SlotCount(f', x) == multiset(f.app)[x] + SlotCount(f, x) + (if x == e then 1 else 0)
  {
    hide Encode, ReadAud, AudEntry;
    if ReadAud(e.val).Ok? {
      AudRoundTrip(ReadAud(e.val).value, e.val);
      AudKey(ReadAud(e.val).value);
    }
  }

  lemma ReadEntryKeepsFree(f: MandateFields, e: Entry, k: Value)
    requires ReadEntry(f, e).Ok? && SlotFree(f, k) && k != e.key
    ensures SlotFree(ReadEntry(f, e).value, k)
  {
    hide Encode, ReadAud, AudEntry;
  }

  lemma SameKeySameBytes(d: Entry, e: Entry)
    ensures d.key == e.key ==> KeyBytes(d) == KeyBytes(e)
  {
  }

  lemma {:induction false} ReadEntriesPartition(es: seq<Entry>, f: MandateFields, x: Entry)
    requires ReadEntries(es, f).Ok? && DistinctKeys(es) && SlotsFree(f, es)
    ensures multiset(EntriesOf(ReadEntries(es, f).value))[x] == multiset(EntriesOf(f))[x] + multiset(es)[x]
  {
    hide ReadEntry, SlotCount, SlotFree, EntriesOf, KeyBytes;
    if |es| > 0 {
      var e, rest := es[0], es[1..];
      var f' := ReadEntry(f, e).value;
      assert SlotFree(f, e.key);
      ReadEntryStep(f, e, x);
      forall d | d in rest
        ensures SlotFree(f', d.key)
      {
        var i :| 0 <= i < |rest| && rest[i] == d;
        assert d in es && KeyBytes(es[0]) != KeyBytes(es[i + 1]);
        SameKeySameBytes(e, d);
        ReadEntryKeepsFree(f, e, d.key);
      }
      ReadEntriesPartition(rest, f', x);
      EntriesOfCount(f, x);
      EntriesOfCount(f', x);
      assert es == [e] + rest;
    }
  }

  /** The application entries in order, reserved ones left out. */
  function AppOnly(es: seq<Entry>): (r: seq<Entry>)
    ensures forall e :: e in r <==> e in es && IsAppKey(e.key)
  {
    if |es| == 0 then []
    else if IsAppKey(es[0].key) then [es[0]] + AppOnly(es[1..])
    else AppOnly(es[1..])
  }

  lemma {:induction false} ReadEntriesApp(es: seq<Entry>, f: MandateFields)
    requires ReadEntries(es, f).Ok?
    ensures ReadEntries(es, f).value.app == f.app + AppOnly(es)
  {
    hide ReadTid, ReadInt, ReadText, ReadAud, Encode;
    if |es| > 0 {
      ClassifyBySign(es[0].key);
      ReadEntriesApp(es[1..], ReadEntry(f, es[0]).value);
    }
  }

  lemma {:induction false} AppOnlySorted(es: seq<Entry>)
    requires Sorted(es)
    ensures Sorted(AppOnly(es))
  {
    hide KeyBytes, LexLe;
    if |es| > 0 {
      AppOnlySorted(es[1..]);
      var rest := AppOnly(es[1..]);
      if IsAppKey(es[0].key) && |rest| > 0 {
        assert rest[0] in es[1..];
        var i :| 0 <= i < |es| - 1 && es[1..][i] == rest[0];
        SortedPairs(es, 0, i + 1);
      }
    }
  }

  /** An entry the reading loop takes: application data, or a known field of the right type. */
  ghost predicate Readable(e: Entry)
  {
    ReadEntry(NO_FIELDS, e).Ok?
  }

  /** The loop succeeds exactly when every entry can be read by itself. */
  lemma {:induction false} ReadEntriesOk(es: seq<Entry>, f: MandateFields)
    ensures ReadEntries(es, f).Ok? <==> forall e :: e in es ==> Readable(e)
  {
    hide ReadTid, ReadInt, ReadText, ReadAud, Encode, Classify;
    if |es| > 0 {
      assert es == [es[0]] + es[1..];
      assert ReadEntry(f, es[0]).Ok? <==> Readable(es[0]);
      if Readable(es[0]) {
        ReadEntriesOk(es[1..], ReadEntry(f, es[0]).value);
      }
    }
  }

  lemma ReservedReadable(f: MandateFields)
    ensures forall e :: e in ReservedEntries(f) ==> Readable(e) && e.key.Int? && KEY_ISS <= e.key.n <= KEY_TID
  {
    hide Encode;
    if f.aud.Some? { AudRoundTrip(f.aud.value, AudEntry(f.aud.value).val); }
  }

  // ---- why reading and minting fail -----------------------------------------------------------

  /** The first entry that cannot be read decides the reason. */
  lemma {:induction false} FirstBadEntryDecides(es: seq<Entry>, f: MandateFields) returns (i: nat)
    requires ReadEntries(es, f).Err?
    ensures i < |es| && (forall j :: 0 <= j < i ==> Readable(es[j]))
    ensures ReadEntry(NO_FIELDS, es[i]) == Err(ReadEntries(es, f).error)
  {
    hide ReadTid, ReadInt, ReadText, ReadAud, Encode, Classify;
    if ReadEntry(f, es[0]).Err? {
      i := 0;
    } else {
      var next := FirstBadEntryDecides(es[1..], ReadEntry(f, es[0]).value);
      i := next + 1;
      forall j | 0 <= j < i
        ensures Readable(es[j])
      {
        if j > 0 { assert es[j] == es[1..][j - 1]; }
      }
    }
  }

  lemma NoSlots(e: Entry)
    ensures SlotCount(NO_FIELDS, e) == 0
  {
  }

  lemma ReadReservedEntry(e: Entry)
    requires Readable(e) && !IsAppKey(e.key)
    ensures e in ReservedEntries(ReadEntry(NO_FIELDS, e).value)
  {
    hide ReservedEntries, SlotCount;
    ClassifyBySign(e.key);
    var f := ReadEntry(NO_FIELDS, e).value;
    assert SlotCount(NO_FIELDS, e) == 0 by { NoSlots(e); }
    ReadEntryStep(NO_FIELDS, e, e);
    ReservedCount(f, e);
    assert multiset(ReservedEntries(f))[e] > 0;
  }

  lemma BadAudience(v: Value)
    ensures ReadAud(v).Err? ==> ReadAud(v) == Err(BadType)
  {
  }

  /** A reserved entry has the wrong type exactly when no fields at all would be written as it. */
  lemma BadEntryReason(e: Entry)
    ensures ReadEntry(NO_FIELDS, e) == Err(UnknownReservedKey) <==> e.key.Int? && e.key.n < KEY_ISS
    ensures ReadEntry(NO_FIELDS, e) == Err(NonCanonical) <==> !IsIntOrText(e.key)
    ensures ReadEntry(NO_FIELDS, e) == Err(BadType)
       <==> e.key.Int? && KEY_ISS <= e.key.n <= KEY_TID && forall f :: e !in ReservedEntries(f)
  {
    hide Classify, ReadAud, AudEntry, ReservedEntries;
    ClassifyBySign(e.key);
    BadAudience(e.val);
    if Classify(e.key).Reserved? {
      if Readable(e) {
        assert e in ReservedEntries(ReadEntry(NO_FIELDS, e).value) by { ReadReservedEntry(e); }
      } else {
        forall f
          ensures e !in ReservedEntries(f)
        {
          ReservedReadable(f);
        }
      }
    }
  }

  /** Which error application data gives: not a map, then a negative key, then a NaN value. */
  lemma AppEntriesErrors(app: Value)
    ensures AppEntries(app) == Err(AppNotMap) <==> !app.Map?
    ensures AppEntries(app) == Err(ReservedKey)
       <==> app.Map? && exists e :: e in app.entries && !OutsideReserved(e.key)
    ensures AppEntries(app) == Err(Nan)
       <==> app.Map? && (forall e :: e in app.entries ==> OutsideReserved(e.key))
            && exists e :: e in app.entries && ContainsNan(e.val)
  {
    hide ContainsNan, IsNegativeInt;
    if app.Map? {
      forall e | e in app.entries
        ensures IsNegativeInt(e.key) <==> !OutsideReserved(e.key)
      {
        NegativeIntByLeadingByte(e.key);
      }
    }
  }

  // ---- parse, then print ----------------------------------------------------------------------

  /** Reading a plaintext loses no entry, doubles none, and keeps the application's order. */
  lemma MandatePartition(plain: seq<byte>)
    requires |plain| < TWO_64 && FromMandatePlaintext(plain).Ok?
    ensures StrictMap(plain).Ok?
    ensures var es, f := StrictMap(plain).value, FromMandatePlaintext(plain).value;
            multiset(EntriesOf(f)) == multiset(es) && f.app == AppOnly(es) && ReadEntries(es, NO_FIELDS) == Ok(f)
  {
    hide StrictMap, EntriesOf, ReadEntries, AppOnly, Clean;
    var es, f := StrictMap(plain).value, FromMandatePlaintext(plain).value;
    StrictMapResult(plain);
    forall x
      ensures multiset(EntriesOf(f))[x] == multiset(es)[x]
    {
      ReadEntriesPartition(es, NO_FIELDS, x);
      EntriesOfCount(NO_FIELDS, x);
    }
    ReadEntriesApp(es, NO_FIELDS);
    assert NO_FIELDS.app + AppOnly(es) == AppOnly(es);
  }

  lemma CanonEntriesFixed(es: seq<Entry>)
    requires forall e :: e in es ==> SortedDeepEntry(e)
    ensures CanonEntries(es) == es
  {
    hide Canon, CanonEntries, SortedDeep;
    forall i | 0 <= i < |es|
      ensures CanonEntries(es)[i] == es[i]
    {
      assert SortedDeepEntry(es[i]);
      CanonFixed(es[i].key);
      CanonFixed(es[i].val);
    }
  }

  /** Any arrangement of a canonical map's entries assembles to that map's bytes. */
  lemma AssembleRearranged(entries: seq<Entry>, es: seq<Entry>)
    requires multiset(entries) == multiset(es)
    requires SortedDeep(Map(es)) && DistinctKeys(es)
    ensures Assemble(entries) == Encode(Map(es))
  {
    hide CanonEntries, Encode, Sort, DistinctKeys, SortedDeepEntry, Sorted;
    forall e | e in entries
      ensures SortedDeepEntry(e)
    {
      assert e in multiset(es);
    }
    CanonEntriesFixed(entries);
    DistinctRearranged(es, entries);
    SortDistinct(entries, es);
  }

  lemma AppEntriesAccepts(app: seq<Entry>)
    requires forall e :: e in app ==> IsAppKey(e.key) && !ContainsNan(e.val)
    ensures AppEntries(Map(app)) == Ok(app)
  {
    hide ContainsNan, Encode;
    forall e | e in app
      ensures !IsNegativeInt(e.key)
    {
      NegativeIntByLeadingByte(e.key);
    }
  }

  lemma AssembleRead(plain: seq<byte>)
    requires |plain| < TWO_64 && FromMandatePlaintext(plain).Ok?
    ensures Assemble(EntriesOf(FromMandatePlaintext(plain).value)) == plain
  {
    hide StrictMap, EntriesOf, ReadEntries, AppOnly, Encode, DistinctKeys, Assemble, SortedDeep, ContainsNan;
    hide HasInvalidMapKey;
    MandatePartition(plain);
    StrictMapResult(plain);
    AssembleRearranged(EntriesOf(FromMandatePlaintext(plain).value), StrictMap(plain).value);
  }

  lemma {:induction false} AppOnlyDistinct(es: seq<Entry>)
    requires DistinctKeys(es)
    ensures DistinctKeys(AppOnly(es))
  {
    hide KeyBytes, IsAppKey;
    if |es| > 0 {
      AppOnlyDistinct(es[1..]);
      var rest := AppOnly(es[1..]);
      forall i | 0 <= i < |rest|
        ensures KeyBytes(es[0]) != KeyBytes(rest[i])
      {
        assert rest[i] in es[1..];
        var j :| 0 <= j < |es| - 1 && es[1..][j] == rest[i];
        assert KeyBytes(es[0]) != KeyBytes(es[j + 1]);
      }
    }
  }

  lemma AppRead(plain: seq<byte>)
    requires |plain| < TWO_64 && FromMandatePlaintext(plain).Ok?
    ensures forall e :: e in FromMandatePlaintext(plain).value.app ==>
              IsAppKey(e.key) && !EntryContainsNan(e) && !EntryInvalid(e)
    ensures DistinctKeys(FromMandatePlaintext(plain).value.app) && Sorted(FromMandatePlaintext(plain).value.app)
  {
    hide StrictMap, EntriesOf, ReadEntries, AppOnly, Encode, DistinctKeys, Sorted, EntryContainsNan, EntryInvalid;
    MandatePartition(plain);
    StrictMapResult(plain);
    var es := StrictMap(plain).value;
    AppOnlySorted(es);
    AppOnlyDistinct(es);
  }

  /** What the reader accepts, the writer writes again byte for byte. */
  lemma ParsePrintMandate(plain: seq<byte>)
    requires |plain| < TWO_64 && FromMandatePlaintext(plain).Ok?
    requires var f := FromMandatePlaintext(plain).value; f.tid.Some? && f.exp.Some?
    ensures var f := FromMandatePlaintext(plain).value;
            ToMandatePlaintext(f.exp.value, f.tid.value, f.iss, f.aud, f.sub, Map(f.app)) == Ok(plain)
  {
    hide StrictMap, EntriesOf, ReadEntries, AppOnly, Encode, DistinctKeys, Assemble, SortedDeep, ContainsNan;
    hide HasInvalidMapKey, AppEntries;
    var f := FromMandatePlaintext(plain).value;
    AssembleRead(plain);
    AppRead(plain);
    AppEntriesAccepts(f.app);
    assert f == MandateFields(Some(f.exp.value), Some(f.tid.value), f.iss, f.aud, f.sub, f.app);
  }
}
