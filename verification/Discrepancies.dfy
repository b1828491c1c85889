/** Inputs at which the code parts from what is said of it. */
module Discrepancies {
  import opened Basics
  import opened ByteStrings
  import opened Cbor
  import opened UniqueDecoding
  import opened KeySort
  import opened Canonical
  import opened NormalForm
  import opened StrictDecoding
  import opened Types
  import opened Aead
  import opened Token
  import opened HalfPlaintext
  import opened HalfPrintParse
  import opened KeyOrder
  import opened Mint
  import opened Verify
  import opened TokenShape
  import opened EndToEnd

  lemma BareTokenIsCarved(c: Cipher, key: Key, exp: i64, tid: Uuid)
    requires Lawful(c)
    requires MintToken(c, IssuerConfig(key, Siv, Siv, B64), RequestOf(Bare(exp, tid)), tid).Ok?
    ensures var token := MintToken(c, IssuerConfig(key, Siv, Siv, B64), RequestOf(Bare(exp, tid)), tid).value;
            CarveMandate(token) == Some(token)
  {
    hide MintToken, ToMandatePlaintext, TokenText, ParseToken, Lawful, IsUuidV7, Seal;
    var issuer := IssuerConfig(key, Siv, Siv, B64);
    var plain, mandate, manifest := MintAnatomy(c, issuer, RequestOf(Bare(exp, tid)), tid);
    TokenTextParses(issuer, None, mandate);
    MandateOnlyText(issuer, mandate);
  }

  /** An accepted token stops being one when a stray character stands where a manifest would. */
  lemma StrayCharacterSpoilsAcceptedToken(
    c: Cipher, key: Key, exp: i64, tid: Uuid, now: i64, clock: Option<u64>)
    requires Lawful(c) && IsUuidV7(tid) && now < exp
    ensures var r := MintToken(c, IssuerConfig(key, Siv, Siv, B64), RequestOf(Bare(exp, tid)), tid);
            var s := Settings([key], None, 0, Some(now), DEFAULT_MAX_DECODED_LEN);
            && r.Ok? && Clauses(c, s, clock, r.value) == Ok(Bare(exp, tid))
            && Clauses(c, s, clock, "x" + r.value) == Err(Malformed)
  {
    hide MintToken, Clauses, CarveMandate, Lawful, IsUuidV7;
    var r := MintToken(c, IssuerConfig(key, Siv, Siv, B64), RequestOf(Bare(exp, tid)), tid);
    var s := Settings([key], None, 0, Some(now), DEFAULT_MAX_DECODED_LEN);
    BareTokenLivesUntilExp(c, key, exp, tid, now, clock);
    BareTokenIsCarved(c, key, exp, tid);
    StrayCharacterSpoils(c, s, clock, r.value);
  }

  lemma ByteStringKeyPasses(e: Entry)
    requires e.key.Bytes? && e.val.Int?
    ensures AppEntries(Map([e])) == Ok([e])
  {
    hide Encode;
  }

  lemma ByteStringEntrySize(e: Entry)
    requires e == Entry(Bytes([0]), Int(1))
    ensures |Encode(e.key)| == 2 && |Encode(e.val)| == 1
  {
  }

  /** A map with a byte-string key mints and cannot be read. */
  lemma ByteStringKeyMintsUnreadable(exp: i64, tid: Uuid)
    ensures var r := ToMandatePlaintext(exp, tid, None, None, None, Map([Entry(Bytes([0]), Int(1))]));
            r.Ok? && FromMandatePlaintext(r.value) == Err(NonCanonical)
  {
    hide EntriesOf, Assemble, FromMandatePlaintext, Encode, EncodeEntries, EncodeHead, TidEntry, ExpEntry;
    var e := Entry(Bytes([0]), Int(1));
    assert AppEntries(Map([e])) == Ok([e]) by { ByteStringKeyPasses(e); }
    assert e in [e] && EntryInvalid(e);
    var f := Bare(exp, tid).(app := [e]);
    AssembledSize(f);
    SmallHead(f);
    EncodedEntry(e);
    ByteStringEntrySize(e);
    EntrySizes(exp, tid);
    TwoEntries(TidEntry(tid), ExpEntry(exp));
    assert ReservedEntries(f) == [TidEntry(tid), ExpEntry(exp)];
    MintedMandateReadableIff(exp, tid, None, None, None, Map([e]));
  }

  lemma ManifestEntrySizes(iss: Str, exp: i64)
    ensures |Encode(ExpEntry(exp).key)| == 1 && |Encode(ExpEntry(exp).val)| <= 9
    ensures |Encode(IssEntry(iss).key)| == 1 && |Encode(IssEntry(iss).val)| <= 9 + |iss|
  {
    hide BigEndian;
  }

  /** A manifest that carries a refresh hint reads, and the manifest writer cannot have written it. */
  lemma ManifestWithExpReads(iss: Str, exp: i64)
    requires |iss| <= I64_MAX
    ensures var plain := Assemble(EntriesOf(NO_FIELDS.(iss := Some(iss), exp := Some(exp))));
            && FromManifestPlaintext(plain) == Some(ManifestFields(iss, Some(exp), []))
            && ToManifestPlaintext(iss, Map([])) != Ok(plain)
  {
    hide EntriesOf, Assemble, Encode, EncodeEntries, EncodeHead, ExpEntry, IssEntry, FromMandatePlaintext;
    hide FromManifestPlaintext, ToManifestPlaintext, Sort;
    var f := NO_FIELDS.(iss := Some(iss), exp := Some(exp));
    var plain := Assemble(EntriesOf(f));
    AssembledSize(f);
    SmallHead(f);
    NoEntries();
    ManifestEntrySizes(iss, exp);
    TwoEntries(ExpEntry(exp), IssEntry(iss));
    assert ReservedEntries(f) == [ExpEntry(exp), IssEntry(iss)];
    ParseAssembled(f);
    assert |Sort(CanonEntries([]))| == 0;
    ManifestReadsAsTidlessMandate(plain, ManifestFields(iss, Some(exp), []));
    ParsePrintManifestIff(plain);
  }

  lemma OneEntryClean(e: Entry)
    requires e.key.Int? && SortedDeep(e.val) && !ContainsNan(e.val) && !HasInvalidMapKey(e.val) && Fits(e.val)
    ensures Clean(Map([e])) && DistinctKeys([e]) && Fits(Map([e]))
  {
    hide Encode;
    assert SortedDeepEntry(e);
    assert !ContainsNan(e.key);
    assert !EntryContainsNan(e);
    assert !EntryInvalid(e);
    assert Fits(e.key);
  }

  lemma NestedRepeatIsAccepted(a: Entry, b: Entry)
    requires a.key == b.key && a.key.Int? && a.val.Int? && b.val.Int?
    ensures var es := [Entry(Int(0), Map([a, b]))];
            StrictMap(Encode(Map(es))) == Ok(es) && Fits(Map(es))
  {
    hide StrictMap, Encode, Canon;
    var nested := Map([a, b]);
    RepeatedKeyStays(a, b);
    CanonSortedDeep(nested);
    assert !EntryContainsNan(a) && !EntryContainsNan(b) && !EntryInvalid(a) && !EntryInvalid(b);
    assert !ContainsNan(nested) && !HasInvalidMapKey(nested);
    OneEntryClean(Entry(Int(0), nested));
    StrictMapAccepts([Entry(Int(0), nested)]);
  }

  /**
   * Repeated keys in a nested map pass strict decoding, in either order: two accepted plaintexts
   * hold the same value up to order and differ.
   */
  lemma NestedRepeatsAreAccepted()
    ensures var a, b := Entry(Int(0), Int(1)), Entry(Int(0), Int(2));
            var es, fs := [Entry(Int(0), Map([a, b]))], [Entry(Int(0), Map([b, a]))];
            && StrictMap(Encode(Map(es))) == Ok(es) && StrictMap(Encode(Map(fs))) == Ok(fs)
            && Same(es[0].val, fs[0].val) && Encode(Map(es)) != Encode(Map(fs))
  {
    hide StrictMap, Encode, Same, Fits;
    var a, b := Entry(Int(0), Int(1)), Entry(Int(0), Int(2));
    var es, fs := [Entry(Int(0), Map([a, b]))], [Entry(Int(0), Map([b, a]))];
    NestedRepeatIsAccepted(a, b);
    NestedRepeatIsAccepted(b, a);
    SwappedSame(a, b);
    assert es[0].val.entries[0] != fs[0].val.entries[0];
    EncodeInjective(Map(es), Map(fs));
  }
}
