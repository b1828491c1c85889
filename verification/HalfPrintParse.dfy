/** What the writer prints, the reader takes back; and mandates and manifests never mix. */
module HalfPrintParse {
  import opened Basics
  import opened ByteStrings
  import opened Cbor
  import opened UniqueDecoding
  import opened KeySort
  import opened Canonical
  import opened StrictDecoding
  import opened Types
  import opened HalfPlaintext
  import opened HalfRoundTrip

  /** Application data every conformant reader can take: integer or text keys at every depth, no repeats on top. */
  ghost predicate PortableApp(app: Value)
  {
    app.Map? && !HasInvalidMapKey(app) && DistinctKeys(app.entries)
  }

  ghost predicate GoodEntry(e: Entry)
  {
    IsAppKey(e.key) && !EntryContainsNan(e) && !EntryInvalid(e)
  }

  /** Application entries as the reserved namespace and the canonical rules want them. */
  ghost predicate GoodEntries(app: seq<Entry>)
  {
    DistinctKeys(app) && forall e :: e in app ==> GoodEntry(e)
  }

  lemma PortableEntriesGood(app: Value)
    requires PortableApp(app) && AppEntries(app).Ok?
    ensures AppEntries(app) == Ok(app.entries) && GoodEntries(app.entries)
  {
    hide Encode, IsNegativeInt;
    forall e | e in app.entries
      ensures GoodEntry(e)
    {
      assert !EntryInvalid(e);
      assert !IsNegativeInt(e.key);
      assert !ContainsNan(e.val) && !ContainsNan(e.key);
      NegativeIntByLeadingByte(e.key);
    }
  }

  // ---- canonicalizing the pushed entries ------------------------------------------------------

  lemma CanonEntriesConcat(a: seq<Entry>, b: seq<Entry>)
    ensures CanonEntries(a + b) == CanonEntries(a) + CanonEntries(b)
  {
    hide CanonEntries, CanonEntry;
  }

  lemma TextsPlain(items: seq<Value>)
    requires forall x :: x in items ==> x.Text?
    ensures SortedDeep(Array(items)) && !ContainsNan(Array(items)) && !HasInvalidMapKey(Array(items))
  {
  }

  lemma AudPlain(aud: seq<Str>)
    ensures var e := AudEntry(aud); SortedDeepEntry(e) && !EntryContainsNan(e) && !EntryInvalid(e)
  {
    TextsPlain(AudEntry(aud).val.items);
  }

  lemma ScalarPlain(e: Entry)
    requires e.key.Int? && (e.val.Int? || e.val.Bytes? || e.val.Text?)
    ensures SortedDeepEntry(e) && !EntryContainsNan(e) && !EntryInvalid(e)
  {
  }

  lemma ReservedPlain(f: MandateFields)
    ensures forall e :: e in ReservedEntries(f) ==> SortedDeepEntry(e) && !EntryContainsNan(e) && !EntryInvalid(e)
  {
    hide AudEntry, SortedDeepEntry, EntryContainsNan, EntryInvalid;
    forall e | e in ReservedEntries(f)
      ensures SortedDeepEntry(e) && !EntryContainsNan(e) && !EntryInvalid(e)
    {
      if f.aud.Some? && e == AudEntry(f.aud.value) {
        AudPlain(f.aud.value);
      } else {
        ScalarPlain(e);
      }
    }
  }

  lemma ReservedIgnoresApp(f: MandateFields, app: seq<Entry>)
    ensures ReservedEntries(f.(app := app)) == ReservedEntries(f)
  {
  }

  lemma CanonEntriesOf(f: MandateFields)
    ensures CanonEntries(EntriesOf(f)) == EntriesOf(f.(app := CanonEntries(f.app)))
  {
    hide CanonEntries, ReservedEntries, SortedDeepEntry, EntryContainsNan, EntryInvalid;
    ReservedPlain(f);
    CanonEntriesFixed(ReservedEntries(f));
    CanonEntriesConcat(f.app, ReservedEntries(f));
    ReservedIgnoresApp(f, CanonEntries(f.app));
  }

  lemma EntriesOfClean(f: MandateFields)
    requires GoodEntries(f.app)
    ensures !ContainsNan(Map(EntriesOf(f))) && !HasInvalidMapKey(Map(EntriesOf(f)))
  {
    hide ReservedEntries, EntryContainsNan, EntryInvalid, IsAppKey, SortedDeepEntry, DistinctKeys;
    ReservedPlain(f);
    forall e | e in EntriesOf(f)
      ensures !EntryContainsNan(e) && !EntryInvalid(e)
    {
      assert e in f.app ==> GoodEntry(e);
    }
  }

  /** Integer keys going down from at most `hi` to at least `lo`, which is up in encoded order. */
  ghost predicate KeysDown(es: seq<Entry>, hi: int, lo: int)
  {
    && (forall e :: e in es ==> e.key.Int? && lo <= e.key.n <= hi)
    && (forall i, j :: 0 <= i < j < |es| ==> es[i].key.n > es[j].key.n)
  }

  lemma KeysDownConcat(a: seq<Entry>, b: seq<Entry>, hi: int, mid: int, lo: int)
    requires KeysDown(a, hi, mid + 1) && KeysDown(b, mid, lo) && lo <= mid + 1 <= hi + 1
    ensures KeysDown(a + b, hi, lo)
  {
    forall i, j | 0 <= i < j < |a + b|
      ensures (a + b)[i].key.n > (a + b)[j].key.n
    {
      if i < |a| <= j {
        assert a[i] in a && b[j - |a|] in b;
      }
    }
  }

  lemma OneKeyDown<T>(field: Option<T>, entry: T -> Entry, n: int)
    requires forall x :: entry(x).key.Int? && entry(x).key.n == n
    ensures KeysDown(IfPresent(field, entry), n, n)
  {
  }

  lemma ReservedKeysDown(f: MandateFields)
    ensures KeysDown(ReservedEntries(f), KEY_TID, KEY_ISS)
  {
    hide KeysDown;
    var t, e, a := IfPresent(f.tid, TidEntry), IfPresent(f.exp, ExpEntry), IfPresent(f.aud, AudEntry);
    var s, i := IfPresent(f.sub, SubEntry), IfPresent(f.iss, IssEntry);
    assert KeysDown(t, KEY_TID, KEY_TID) by { OneKeyDown(f.tid, TidEntry, KEY_TID); }
    assert KeysDown(e, KEY_EXP, KEY_EXP) by { OneKeyDown(f.exp, ExpEntry, KEY_EXP); }
    assert KeysDown(a, KEY_AUD, KEY_AUD) by { OneKeyDown(f.aud, AudEntry, KEY_AUD); }
    assert KeysDown(s, KEY_SUB, KEY_SUB) by { OneKeyDown(f.sub, SubEntry, KEY_SUB); }
    assert KeysDown(i, KEY_ISS, KEY_ISS) by { OneKeyDown(f.iss, IssEntry, KEY_ISS); }
    KeysDownConcat(t, e, KEY_TID, KEY_EXP, KEY_EXP);
    KeysDownConcat(t + e, a, KEY_TID, KEY_AUD, KEY_AUD);
    KeysDownConcat(t + e + a, s, KEY_TID, KEY_SUB, KEY_SUB);
    KeysDownConcat(t + e + a + s, i, KEY_TID, KEY_ISS, KEY_ISS);
  }

  lemma SmallNegativeKey(n: int)
    requires KEY_ISS <= n <= KEY_TID
    ensures Encode(Int(n)) == [0x1f - n]
  {
  }

  lemma ReservedKeysDistinct(f: MandateFields)
    ensures DistinctKeys(ReservedEntries(f))
    ensures forall e :: e in ReservedEntries(f) ==> KeyBytes(e)[0] / 32 == 1
  {
    hide ReservedEntries, Encode;
    ReservedKeysDown(f);
    var es := ReservedEntries(f);
    forall e | e in es
      ensures KeyBytes(e) == [0x1f - e.key.n] && KeyBytes(e)[0] / 32 == 1
    {
      SmallNegativeKey(e.key.n);
      assert e.key == Int(e.key.n);
    }
    forall i, j | 0 <= i < j < |es|
      ensures KeyBytes(es[i]) != KeyBytes(es[j])
    {
      assert es[i] in es && es[j] in es;
    }
  }

  lemma AppKeyBytes(e: Entry)
    requires OutsideReserved(e.key)
    ensures KeyBytes(e)[0] / 32 != 1
  {
    hide Encode;
    NegativeIntByLeadingByte(e.key);
  }

  lemma EntriesOfDistinct(f: MandateFields)
    requires DistinctKeys(f.app) && forall e :: e in f.app ==> OutsideReserved(e.key)
    ensures DistinctKeys(EntriesOf(f))
  {
    hide ReservedEntries, Encode, OutsideReserved;
    ReservedKeysDistinct(f);
    var a, r := f.app, ReservedEntries(f);
    forall i, j | 0 <= i < |a| && 0 <= j < |r|
      ensures KeyBytes(a[i]) != KeyBytes(r[j])
    {
      AppKeyBytes(a[i]);
      assert r[j] in r;
    }
  }

  // ---- print, then parse ----------------------------------------------------------------------

  lemma CanonKeepsGood(app: seq<Entry>)
    requires GoodEntries(app)
    ensures DistinctKeys(CanonEntries(app))
    ensures forall e :: e in CanonEntries(app) ==> IsAppKey(e.key)
  {
    hide Encode, CanonEntries, EntryContainsNan, EntryInvalid;
    var c := CanonEntries(app);
    forall i | 0 <= i < |app|
      ensures c[i].key == app[i].key && IsAppKey(c[i].key)
    {
      assert GoodEntry(app[i]);
      assert c[i] == CanonEntry(app[i]);
    }
  }

  lemma SlotCarried(g: MandateFields, h: MandateFields, e: Entry)
    requires forall d :: d in h.app ==> OutsideReserved(d.key)
    requires multiset(EntriesOf(g)) == multiset(EntriesOf(h))
    requires SlotCount(g, e) > 0 && !OutsideReserved(e.key)
    ensures SlotCount(h, e) > 0
  {
    hide EntriesOf, SlotCount;
    EntriesOfCount(g, e);
    EntriesOfCount(h, e);
  }

  lemma SlotsInclude(g: MandateFields, h: MandateFields)
    requires forall e :: e in h.app ==> OutsideReserved(e.key)
    requires multiset(EntriesOf(g)) == multiset(EntriesOf(h))
    ensures g.tid.Some? ==> h.tid == g.tid
    ensures g.exp.Some? ==> h.exp == g.exp
    ensures g.aud.Some? ==> h.aud == g.aud
    ensures g.sub.Some? ==> h.sub == g.sub
    ensures g.iss.Some? ==> h.iss == g.iss
  {
    hide EntriesOf, AudEntry;
    if h.aud.Some? { AudKey(h.aud.value); }
    if g.tid.Some? { SlotCarried(g, h, TidEntry(g.tid.value)); }
    if g.exp.Some? { SlotCarried(g, h, ExpEntry(g.exp.value)); }
    if g.sub.Some? { SlotCarried(g, h, SubEntry(g.sub.value)); }
    if g.iss.Some? { SlotCarried(g, h, IssEntry(g.iss.value)); }
    if g.aud.Some? {
      AudKey(g.aud.value);
      SlotCarried(g, h, AudEntry(g.aud.value));
      if h.aud.Some? {
        AudRoundTrip(g.aud.value, AudEntry(g.aud.value).val);
        AudRoundTrip(h.aud.value, AudEntry(h.aud.value).val);
      }
    }
  }

  /** The fields of rearranged entries are determined. */
  lemma SlotsDetermined(g: MandateFields, h: MandateFields)
    requires forall e :: e in g.app ==> OutsideReserved(e.key)
    requires forall e :: e in h.app ==> OutsideReserved(e.key)
    requires multiset(EntriesOf(g)) == multiset(EntriesOf(h))
    ensures g.tid == h.tid && g.exp == h.exp && g.iss == h.iss && g.aud == h.aud && g.sub == h.sub
    ensures multiset(g.app) == multiset(h.app)
  {
    hide EntriesOf;
    SlotsInclude(g, h);
    SlotsInclude(h, g);
    forall x
      ensures multiset(g.app)[x] == multiset(h.app)[x]
    {
      EntriesOfCount(g, x);
      EntriesOfCount(h, x);
    }
  }

  lemma AppReadable(e: Entry)
    requires IsAppKey(e.key)
    ensures Readable(e)
  {
    hide Classify;
    ClassifyBySign(e.key);
  }

  lemma AllReadable(f: MandateFields)
    requires forall e :: e in f.app ==> IsAppKey(e.key)
    ensures forall e :: e in EntriesOf(f) ==> Readable(e)
  {
    hide ReservedEntries, Readable, IsAppKey;
    ReservedReadable(f);
    forall e | e in f.app
      ensures Readable(e)
    {
      AppReadable(e);
    }
  }

  lemma ReadBack(f: MandateFields, sorted: seq<Entry>)
    requires DistinctKeys(f.app) && forall e :: e in f.app ==> IsAppKey(e.key)
    requires sorted == Sort(EntriesOf(f))
    ensures ReadEntries(sorted, NO_FIELDS) == Ok(f.(app := Sort(f.app)))
  {
    hide EntriesOf, Sort, Sorted, DistinctKeys, AppOnly, Readable, ReadEntries, KeyBytes;
    SortSorted(EntriesOf(f));
    SortMultiset(EntriesOf(f));
    EntriesOfDistinct(f);
    DistinctRearranged(EntriesOf(f), sorted);
    AllReadable(f);
    forall e | e in sorted
      ensures Readable(e)
    {
      assert e in multiset(EntriesOf(f));
    }
    ReadEntriesOk(sorted, NO_FIELDS);
    var g := ReadEntries(sorted, NO_FIELDS).value;
    forall x
      ensures multiset(EntriesOf(g))[x] == multiset(EntriesOf(f))[x]
    {
      ReadEntriesPartition(sorted, NO_FIELDS, x);
      EntriesOfCount(NO_FIELDS, x);
    }
    assert multiset(EntriesOf(g)) == multiset(EntriesOf(f));
    ReadEntriesApp(sorted, NO_FIELDS);
    assert g.app == AppOnly(sorted);
    AppOnlySorted(sorted);
    SlotsDetermined(g, f);
    SortDistinct(f.app, g.app);
  }

  /** Reading an assembled plaintext gives the fields back, the application map in canonical order. */
  lemma ParseAssembled(f: MandateFields)
    requires GoodEntries(f.app) && |Assemble(EntriesOf(f))| < TWO_64
    ensures FromMandatePlaintext(Assemble(EntriesOf(f))) == Ok(f.(app := Sort(CanonEntries(f.app))))
    ensures StrictMap(Assemble(EntriesOf(f))) == Ok(Sort(EntriesOf(f.(app := CanonEntries(f.app)))))
  {
    hide EntriesOf, Sort, Sorted, DistinctKeys, ReadEntries, Encode, GoodEntry, ContainsNan, HasInvalidMapKey;
    hide SortedDeep, StrictMap, CanonEntries;
    var c := f.(app := CanonEntries(f.app));
    var sorted := Sort(EntriesOf(c));
    CanonEntriesOf(f);
    EntriesOfClean(f);
    CanonClean(Map(EntriesOf(f)));
    CanonSortedDeep(Map(EntriesOf(f)));
    ShortEncodingFits(Map(sorted));
    CanonKeepsGood(f.app);
    EntriesOfDistinct(c);
    SortMultiset(EntriesOf(c));
    DistinctRearranged(EntriesOf(c), sorted);
    StrictMapAccepts(sorted);
    ReadBack(c, sorted);
  }

  lemma PortableIsMap(app: Value)
    requires PortableApp(app)
    ensures app.Map?
  {
  }

  /** What the writer prints from portable application data, the reader takes back. */
  lemma PrintParseMandate(
    exp: i64, tid: Uuid, iss: Option<Str>, aud: Option<seq<Str>>, sub: Option<Str>, app: Value)
    requires PortableApp(app)
    requires var r := ToMandatePlaintext(exp, tid, iss, aud, sub, app); r.Ok? && |r.value| < TWO_64
    ensures FromMandatePlaintext(ToMandatePlaintext(exp, tid, iss, aud, sub, app).value)
         == Ok(MandateFields(Some(exp), Some(tid), iss, aud, sub, Canon(app).entries))
  {
    hide EntriesOf, Assemble, FromMandatePlaintext, AppEntries, GoodEntries, PortableApp, CanonEntries;
    assert app.Map? by { PortableIsMap(app); }
    PortableEntriesGood(app);
    ParseAssembled(MandateFields(Some(exp), Some(tid), iss, aud, sub, app.entries));
  }

  // ---- exactly which minted plaintexts can be read --------------------------------------------

  lemma MapParts(entries: seq<Entry>)
    ensures HasInvalidMapKey(Map(entries)) <==> exists e :: e in entries && EntryInvalid(e)
  {
  }

  lemma InvalidEntriesOf(f: MandateFields)
    requires !HasInvalidMapKey(Map(EntriesOf(f)))
    ensures !HasInvalidMapKey(Map(f.app))
    ensures forall e :: e in EntriesOf(f) ==> IsIntOrText(e.key)
  {
    hide ReservedEntries, HasInvalidMapKey;
    MapParts(EntriesOf(f));
    MapParts(f.app);
    forall e | e in EntriesOf(f)
      ensures !EntryInvalid(e)
    {
    }
    forall e | e in f.app
      ensures !EntryInvalid(e)
    {
      assert e in EntriesOf(f);
    }
  }

  lemma DistinctBeforeCanon(entries: seq<Entry>)
    requires DistinctKeys(CanonEntries(entries)) && forall e :: e in entries ==> IsIntOrText(e.key)
    ensures DistinctKeys(entries)
  {
    hide CanonEntries, KeyBytes, Encode;
    var c := CanonEntries(entries);
    forall i | 0 <= i < |entries|
      ensures c[i].key == entries[i].key && KeyBytes(c[i]) == KeyBytes(entries[i])
    {
      assert entries[i] in entries;
      assert c[i] == CanonEntry(entries[i]);
      SameKeySameBytes(c[i], entries[i]);
    }
  }

  lemma DistinctPrefix(a: seq<Entry>, b: seq<Entry>)
    requires DistinctKeys(a + b)
    ensures DistinctKeys(a)
  {
    hide KeyBytes;
    forall i, j | 0 <= i < j < |a|
      ensures KeyBytes(a[i]) != KeyBytes(a[j])
    {
      assert (a + b)[i] == a[i] && (a + b)[j] == a[j];
    }
  }

  lemma ReadableIsPortable(f: MandateFields)
    requires |Assemble(EntriesOf(f))| < TWO_64 && StrictMap(Assemble(EntriesOf(f))).Ok?
    ensures !HasInvalidMapKey(Map(f.app)) && DistinctKeys(f.app)
  {
    hide Encode, Sort, StrictMap, ReservedEntries, DistinctKeys, CanonEntries, SortedDeep, ContainsNan;
    hide HasInvalidMapKey;
    var entries := EntriesOf(f);
    var es := StrictMap(Assemble(entries)).value;
    StrictMapResult(Assemble(entries));
    ShortEncodingFits(Canon(Map(entries)));
    EncodeInjective(Canon(Map(entries)), Map(es));
    assert es == Sort(CanonEntries(entries));
    CanonClean(Map(entries));
    InvalidEntriesOf(f);
    SortMultiset(CanonEntries(entries));
    DistinctRearranged(es, CanonEntries(entries));
    DistinctBeforeCanon(entries);
    DistinctPrefix(f.app, ReservedEntries(f));
  }

  lemma CanonOfMap(entries: seq<Entry>)
    ensures Canon(Map(entries)) == Map(Sort(CanonEntries(entries)))
  {
  }

  /** Strict decoding of minted bytes can only fail for what they hold, never for how they are written. */
  lemma AssembledIsWellFormed(entries: seq<Entry>)
    requires |Assemble(entries)| < TWO_64
    ensures StrictMap(Assemble(entries)).Ok? || StrictMap(Assemble(entries)) == Err(NonCanonical)
  {
    hide Encode, Decode, Canon, Fits, DistinctKeys, EntryContainsNan, EntryInvalid;
    ShortEncodingFits(Canon(Map(entries)));
    DecodeEncode(Canon(Map(entries)), []);
    assert Encode(Canon(Map(entries))) + [] == Assemble(entries);
    assert Canon(Map(entries)).Map? by { CanonOfMap(entries); }
  }

  /**
   * A minted mandate reads back, the application map in canonical order, exactly when that map has
   * integer or text keys at every depth and no repeated top-level key; otherwise it is
   * `NonCanonical`. Minting itself does not check that.
   */
  lemma MintedMandateReadableIff(
    exp: i64, tid: Uuid, iss: Option<Str>, aud: Option<seq<Str>>, sub: Option<Str>, app: Value)
    requires var r := ToMandatePlaintext(exp, tid, iss, aud, sub, app); r.Ok? && |r.value| < TWO_64
    ensures FromMandatePlaintext(ToMandatePlaintext(exp, tid, iss, aud, sub, app).value)
         == if PortableApp(app) then Ok(MandateFields(Some(exp), Some(tid), iss, aud, sub, Canon(app).entries))
            else Err(NonCanonical)
  {
    hide EntriesOf, Assemble, StrictMap, ReadEntries, IsNegativeInt, ContainsNan, HasInvalidMapKey, DistinctKeys;
    if PortableApp(app) {
      PrintParseMandate(exp, tid, iss, aud, sub, app);
    } else {
      var f := MandateFields(Some(exp), Some(tid), iss, aud, sub, app.entries);
      AssembledIsWellFormed(EntriesOf(f));
      if StrictMap(Assemble(EntriesOf(f))).Ok? {
        ReadableIsPortable(f);
      }
    }
  }

  /** What is read is portable and in canonical order. */
  lemma ReadAppIsCanonical(plain: seq<byte>)
    requires |plain| < TWO_64 && FromMandatePlaintext(plain).Ok?
    ensures var app := Map(FromMandatePlaintext(plain).value.app);
            PortableApp(app) && SortedDeep(app) && Canon(app) == app
  {
    hide FromMandatePlaintext, StrictMap, EntriesOf, ReadEntries, DistinctKeys, Sorted, HasInvalidMapKey;
    hide EntryContainsNan, EntryInvalid, SortedDeepEntry, Encode, Canon;
    var f := FromMandatePlaintext(plain).value;
    AppRead(plain);
    MandatePartition(plain);
    StrictMapResult(plain);
    MapParts(f.app);
    CanonFixed(Map(f.app));
  }

  // ---- manifests ------------------------------------------------------------------------------

  lemma {:induction false} FieldsOnlyFill(es: seq<Entry>, f: MandateFields)
    requires ReadEntries(es, f).Ok?
    ensures f.tid.Some? ==> ReadEntries(es, f).value.tid.Some?
    ensures f.aud.Some? ==> ReadEntries(es, f).value.aud.Some?
    ensures f.sub.Some? ==> ReadEntries(es, f).value.sub.Some?
  {
    hide Encode, ReadTid, ReadAud, ReadInt, Classify;
    if |es| > 0 {
      FieldsOnlyFill(es[1..], ReadEntry(f, es[0]).value);
    }
  }

  /** The manifest loop is the mandate loop with three fields forbidden. */
  lemma {:induction false} ClaimsAreFields(es: seq<Entry>, f: MandateFields)
    requires f.tid.None? && f.aud.None? && f.sub.None?
    ensures ReadClaims(es, f.iss, f.exp, f.app)
         == match ReadEntries(es, f)
            case Ok(g) =>
              if g.tid.None? && g.aud.None? && g.sub.None? && g.iss.Some? then
                Some(ManifestFields(g.iss.value, g.exp, g.app))
              else None
            case Err(_) => None
  {
    hide IsNegativeInt, ReadTid, ReadAud, ReadInt;
    if |es| > 0 {
      match ReadEntry(f, es[0])
      case Err(_) =>
      case Ok(g) =>
        if g.tid.None? && g.aud.None? && g.sub.None? {
          ClaimsAreFields(es[1..], g);
        } else if ReadEntries(es[1..], g).Ok? {
          FieldsOnlyFill(es[1..], g);
        }
    }
  }

  /** A plaintext is a readable manifest exactly when it reads as a mandate with iss and without tid, aud and sub. */
  lemma ManifestReadsAsTidlessMandate(plain: seq<byte>, m: ManifestFields)
    ensures FromManifestPlaintext(plain) == Some(m)
       <==> FromMandatePlaintext(plain) == Ok(MandateFields(m.exp, None, Some(m.iss), None, None, m.app))
  {
    hide StrictMap, ReadClaims, ReadEntries;
    match StrictMap(plain)
    case Err(_) =>
    case Ok(es) => ClaimsAreFields(es, NO_FIELDS);
  }

  /** Reading a manifest loses no entry and doubles none. */
  lemma ManifestPartition(plain: seq<byte>)
    requires |plain| < TWO_64 && FromManifestPlaintext(plain).Some?
    ensures StrictMap(plain).Ok?
    ensures var es, m := StrictMap(plain).value, FromManifestPlaintext(plain).value;
            var f := MandateFields(m.exp, None, Some(m.iss), None, None, m.app);
            multiset(EntriesOf(f)) == multiset(es) && m.app == AppOnly(es)
  {
    hide FromManifestPlaintext, FromMandatePlaintext, StrictMap, EntriesOf, AppOnly;
    ManifestReadsAsTidlessMandate(plain, FromManifestPlaintext(plain).value);
    MandatePartition(plain);
  }

  /** A minted manifest reads back as exactly what was put in. */
  lemma PrintParseManifest(iss: Str, app: Value)
    requires PortableApp(app)
    requires var r := ToManifestPlaintext(iss, app); r.Ok? && |r.value| < TWO_64
    ensures FromManifestPlaintext(ToManifestPlaintext(iss, app).value)
         == Some(ManifestFields(iss, None, Canon(app).entries))
  {
    hide EntriesOf, Assemble, FromMandatePlaintext, FromManifestPlaintext, AppEntries, GoodEntries, PortableApp;
    hide CanonEntries;
    PortableIsMap(app);
    PortableEntriesGood(app);
    ParseAssembled(NO_FIELDS.(iss := Some(iss), app := app.entries));
    ManifestReadsAsTidlessMandate(ToManifestPlaintext(iss, app).value, ManifestFields(iss, None, Canon(app).entries));
  }

  /** A minted manifest reads back exactly when its claims are portable, and shows nothing otherwise. */
  lemma MintedManifestReadableIff(iss: Str, app: Value)
    requires var r := ToManifestPlaintext(iss, app); r.Ok? && |r.value| < TWO_64
    ensures FromManifestPlaintext(ToManifestPlaintext(iss, app).value)
         == if PortableApp(app) then Some(ManifestFields(iss, None, Canon(app).entries)) else None
  {
    hide EntriesOf, Assemble, StrictMap, ReadClaims, IsNegativeInt, ContainsNan, HasInvalidMapKey, DistinctKeys;
    if PortableApp(app) {
      PrintParseManifest(iss, app);
    } else {
      var f := NO_FIELDS.(iss := Some(iss), app := app.entries);
      if StrictMap(Assemble(EntriesOf(f))).Ok? {
        ReadableIsPortable(f);
      }
    }
  }

  lemma EntriesKeepNan(app: seq<Entry>)
    requires forall e :: e in app ==> !EntryContainsNan(e)
    ensures forall e :: e in app ==> !ContainsNan(e.val)
  {
    hide ContainsNan;
    forall e | e in app
      ensures !ContainsNan(e.val)
    {
      assert !EntryContainsNan(e);
    }
  }

  /** A readable manifest is the writer's own, byte for byte, exactly when it carries no refresh hint. */
  lemma ParsePrintManifestIff(plain: seq<byte>)
    requires |plain| < TWO_64 && FromManifestPlaintext(plain).Some?
    ensures var m := FromManifestPlaintext(plain).value;
            ToManifestPlaintext(m.iss, Map(m.app)) == Ok(plain) <==> m.exp.None?
  {
    hide EntriesOf, Assemble, FromMandatePlaintext, FromManifestPlaintext, AppEntries, GoodEntries;
    hide CanonEntries, Sort, DistinctKeys, HasInvalidMapKey, EntryInvalid, EntryContainsNan, ContainsNan;
    var m := FromManifestPlaintext(plain).value;
    ManifestReadsAsTidlessMandate(plain, m);
    AppRead(plain);
    EntriesKeepNan(m.app);
    AppEntriesAccepts(m.app);
    MapParts(m.app);
    if m.exp.None? {
      AssembleRead(plain);
    }
    if ToManifestPlaintext(m.iss, Map(m.app)) == Ok(plain) {
      PrintParseManifest(m.iss, Map(m.app));
    }
  }
}
