/** Identical fields mint identical bytes, whatever the insertion order, and only they do. */
module Determinism {
  import opened Basics
  import opened ByteStrings
  import opened Cbor
  import opened UniqueDecoding
  import opened KeySort
  import opened Canonical
  import opened NormalForm
  import opened Types
  import opened Aead
  import opened TextCodec
  import opened Token
  import opened HalfPlaintext
  import opened HalfRoundTrip
  import opened HalfPrintParse
  import opened KeyOrder
  import opened Mint
  import opened EndToEnd

  /** The mandate plaintext of complete fields. */
  function Printed(f: MandateFields): (r: Result<seq<byte>, MintError>)
    requires f.exp.Some? && f.tid.Some?
  {
    ToMandatePlaintext(f.exp.value, f.tid.value, f.iss, f.aud, f.sub, Map(f.app))
  }

  ghost predicate SameFields(f: MandateFields, g: MandateFields)
  {
    f.(app := []) == g.(app := []) && Same(Map(f.app), Map(g.app))
  }

  lemma PrintedIsAssembled(f: MandateFields)
    requires f.exp.Some? && f.tid.Some? && Printed(f).Ok?
    ensures Printed(f) == Ok(Assemble(EntriesOf(f))) && AppEntries(Map(f.app)).Ok?
  {
    hide Assemble, EntriesOf, IsNegativeInt, ContainsNan;
    assert f == MandateFields(Some(f.exp.value), Some(f.tid.value), f.iss, f.aud, f.sub, f.app);
  }

  /** What is encoded: the canonicalized entries, application and reserved, sorted. */
  lemma AssembledIs(f: MandateFields)
    ensures Assemble(EntriesOf(f)) == Encode(Map(Sort(EntriesOf(f.(app := CanonEntries(f.app))))))
  {
    hide Encode, EntriesOf, CanonEntries, Sort;
    CanonEntriesOf(f);
  }

  lemma AssembledAppFits(f: MandateFields)
    requires |Assemble(EntriesOf(f))| < TWO_64
    ensures Fits(Map(Sort(EntriesOf(f.(app := CanonEntries(f.app))))))
    ensures FitsEntries(CanonEntries(f.app))
  {
    hide Encode, ReservedEntries, CanonEntries, Sort;
    AssembledIs(f);
    var entries := EntriesOf(f.(app := CanonEntries(f.app)));
    ShortEncodingFits(Map(Sort(entries)));
    forall e | e in CanonEntries(f.app)
      ensures Fits(e.key) && Fits(e.val)
    {
      assert e in entries;
      SortMembers(entries, e);
    }
  }

  lemma SameFieldsAssembleAlike(f: MandateFields, g: MandateFields)
    requires SameFields(f, g) && DistinctDeep(Map(f.app))
    requires AppEntries(Map(f.app)).Ok? && |Assemble(EntriesOf(f))| < TWO_64
    ensures Assemble(EntriesOf(f)) == Assemble(EntriesOf(g))
  {
    hide Encode, Assemble, ReservedEntries, CanonEntries, Sort, Sorted, DistinctKeys, OutsideReserved;
    hide AppEntries, SameEntries, DistinctDeepEntry, FitsEntries;
    AssembledAppFits(f);
    SameEntriesMultiset(f.app, g.app);
    CanonKeysDistinct(f.app);
    CanonOutsideReserved(f.app);
    var c, d := f.(app := CanonEntries(f.app)), g.(app := CanonEntries(g.app));
    EntriesOfDistinct(c);
    ReservedIgnoresApp(c, d.app);
    assert c.(app := d.app) == d by { assert f.(app := []).(app := d.app) == g.(app := []).(app := d.app); }
    assert multiset(EntriesOf(c)) == multiset(EntriesOf(d));
    SortMultiset(EntriesOf(d));
    SortSorted(EntriesOf(d));
    SortDistinct(EntriesOf(c), Sort(EntriesOf(d)));
    AssembledIs(f);
    AssembledIs(g);
  }

  lemma AssembledAlikeSameFields(f: MandateFields, g: MandateFields)
    requires AppEntries(Map(f.app)).Ok? && AppEntries(Map(g.app)).Ok?
    requires |Assemble(EntriesOf(f))| < TWO_64 && Assemble(EntriesOf(f)) == Assemble(EntriesOf(g))
    ensures SameFields(f, g)
  {
    hide Encode, Assemble, EntriesOf, CanonEntries, Sort, OutsideReserved, AppEntries, SameEntries, Fits;
    var c, d := f.(app := CanonEntries(f.app)), g.(app := CanonEntries(g.app));
    AssembledAppFits(f);
    AssembledAppFits(g);
    AssembledIs(f);
    AssembledIs(g);
    EncodeInjective(Map(Sort(EntriesOf(c))), Map(Sort(EntriesOf(d))));
    SortMultiset(EntriesOf(c));
    SortMultiset(EntriesOf(d));
    CanonOutsideReserved(f.app);
    CanonOutsideReserved(g.app);
    SlotsDetermined(c, d);
    EqualCanonSameEntries(f.app, g.app);
  }

  /**
   * Two mandates have the same plaintext bytes exactly when their fields are the same and their
   * application maps differ at most in the order of entries, at any depth.
   */
  lemma SamePlaintextIff(f: MandateFields, g: MandateFields)
    requires f.exp.Some? && f.tid.Some? && g.exp.Some? && g.tid.Some?
    requires Printed(f).Ok? && Printed(g).Ok? && |Printed(f).value| < TWO_64
    requires DistinctDeep(Map(f.app))
    ensures Printed(f) == Printed(g) <==> SameFields(f, g)
  {
    hide Printed, Assemble, EntriesOf, SameFields, AppEntries;
    PrintedIsAssembled(f);
    PrintedIsAssembled(g);
    if SameFields(f, g) { SameFieldsAssembleAlike(f, g); }
    if Printed(f) == Printed(g) { AssembledAlikeSameFields(f, g); }
  }

  // ---- manifests and whole tokens -------------------------------------------------------------

  datatype ClaimSet = ClaimSet(iss: Str, claims: Value)

  ghost predicate SameManifests(m: Option<ClaimSet>, n: Option<ClaimSet>)
  {
    && (m.Some? <==> n.Some?)
    && (m.Some? ==> m.value.iss == n.value.iss && Same(m.value.claims, n.value.claims))
  }

  /** The builder state that asks for these clauses and this manifest. */
  function RequestBoth(f: MandateFields, m: Option<ClaimSet>): (q: Request)
  {
    RequestOf(f).(manifestPlain :=
      if m.Some? then Some(ToManifestPlaintext(m.value.iss, m.value.claims)) else None)
  }

  lemma ManifestIsAssembled(m: ClaimSet)
    requires ToManifestPlaintext(m.iss, m.claims).Ok?
    ensures m.claims.Map? && AppEntries(m.claims) == Ok(m.claims.entries)
    ensures ToManifestPlaintext(m.iss, m.claims)
         == Ok(Assemble(EntriesOf(NO_FIELDS.(iss := Some(m.iss), app := m.claims.entries))))
  {
    hide Assemble, EntriesOf, IsNegativeInt, ContainsNan;
  }

  /** Two manifests have the same plaintext bytes exactly when issuer and claims agree up to order. */
  lemma SameManifestPlaintextIff(m: ClaimSet, n: ClaimSet)
    requires ToManifestPlaintext(m.iss, m.claims).Ok? && ToManifestPlaintext(n.iss, n.claims).Ok?
    requires |ToManifestPlaintext(m.iss, m.claims).value| < TWO_64 && DistinctDeep(m.claims)
    ensures ToManifestPlaintext(m.iss, m.claims) == ToManifestPlaintext(n.iss, n.claims)
       <==> SameManifests(Some(m), Some(n))
  {
    hide ToManifestPlaintext, Assemble, EntriesOf, AppEntries, Same, DistinctDeep;
    ManifestIsAssembled(m);
    ManifestIsAssembled(n);
    var f := NO_FIELDS.(iss := Some(m.iss), app := m.claims.entries);
    var g := NO_FIELDS.(iss := Some(n.iss), app := n.claims.entries);
    assert Map(f.app) == m.claims && Map(g.app) == n.claims;
    assert SameFields(f, g) <==> SameManifests(Some(m), Some(n));
    if SameFields(f, g) { SameFieldsAssembleAlike(f, g); }
    if Assemble(EntriesOf(f)) == Assemble(EntriesOf(g)) { AssembledAlikeSameFields(f, g); }
  }

  lemma SealedBytesDecide(issuer: IssuerConfig, a: seq<byte>, b: seq<byte>)
    requires EncodeText(a, issuer.encoding) == EncodeText(b, issuer.encoding)
    ensures a == b
  {
    hide EncodeText, DecodeText;
    CodecBijection(EncodeText(a, issuer.encoding), a, issuer.encoding);
    CodecBijection(EncodeText(b, issuer.encoding), b, issuer.encoding);
  }

  /** One issuer's token text determines both sealed halves. */
  lemma TokenTextDecides(
    issuer: IssuerConfig, m: Option<seq<byte>>, a: seq<byte>, n: Option<seq<byte>>, b: seq<byte>)
    requires |a| > 0 && |b| > 0 && (m.Some? ==> |m.value| > 0) && (n.Some? ==> |n.value| > 0)
    requires TokenText(issuer, m, a) == TokenText(issuer, n, b)
    ensures m == n && a == b
  {
    hide TokenText, EncodeText, ParseToken;
    TokenTextParses(issuer, m, a);
    TokenTextParses(issuer, n, b);
    SealedBytesDecide(issuer, a, b);
    if m.Some? && n.Some? { SealedBytesDecide(issuer, m.value, n.value); }
  }

  /** The builder's manifest, built without error. */
  function Wanted(p: Option<seq<byte>>): (plain: Option<Result<seq<byte>, MintError>>)
  {
    if p.Some? then Some(Ok(p.value)) else None
  }

  lemma SealDecides(c: Cipher, p: seq<byte>, q: seq<byte>, key: Key, alg: Alg)
    requires Lawful(c) && Seal(c, p, key, alg).Ok?
    ensures Seal(c, p, key, alg) == Seal(c, q, key, alg) ==> p == q
  {
    hide Seal, Open, Lawful;
    if Seal(c, p, key, alg) == Seal(c, q, key, alg) {
      OpensIffSealed(c, Seal(c, p, key, alg).value, p, key, alg);
      OpensIffSealed(c, Seal(c, p, key, alg).value, q, key, alg);
    }
  }

  /** Sealing is injective, and so is sealing an optional manifest. */
  lemma SealedManifestsDecide(c: Cipher, issuer: IssuerConfig, p: Option<seq<byte>>, q: Option<seq<byte>>)
    requires Lawful(c)
    ensures var r, t := SealManifest(c, issuer, Wanted(p)), SealManifest(c, issuer, Wanted(q));
            r.Ok? && t.Ok? ==> (r == t <==> p == q)
  {
    hide Seal, Lawful;
    if p.Some? && q.Some? && Seal(c, p.value, MANIFEST_KEY, issuer.manifestAlg).Ok? {
      SealDecides(c, p.value, q.value, MANIFEST_KEY, issuer.manifestAlg);
    }
  }

  lemma ManifestAsked(c: Cipher, issuer: IssuerConfig, q: Request, m: Option<ClaimSet>, sealed: Option<seq<byte>>)
    returns (plain: Option<seq<byte>>)
    requires Lawful(c) && SealManifest(c, issuer, q.manifestPlain) == Ok(sealed)
    requires q.manifestPlain == if m.Some? then Some(ToManifestPlaintext(m.value.iss, m.value.claims)) else None
    ensures q.manifestPlain == Wanted(plain) && (plain.Some? <==> m.Some?) && (sealed.Some? <==> m.Some?)
    ensures plain.Some? ==> ToManifestPlaintext(m.value.iss, m.value.claims) == Ok(plain.value)
    ensures plain.Some? ==> |sealed.value| == |plain.value| + OVERHEAD
  {
    hide Seal, ToManifestPlaintext, Lawful;
    plain := if m.Some? then Some(ToManifestPlaintext(m.value.iss, m.value.claims).value) else None;
    if m.Some? { OpensIffSealed(c, sealed.value, plain.value, MANIFEST_KEY, issuer.manifestAlg); }
  }

  /**
   * Whole tokens with both halves: one issuer mints the same token from the same clauses and
   * claims, whatever the order of entries, and from no others.
   */
  lemma SameTokenIff(
    c: Cipher, issuer: IssuerConfig, f: MandateFields, m: Option<ClaimSet>, g: MandateFields, n: Option<ClaimSet>,
    freshTid: Uuid)
    requires Lawful(c) && f.tid.Some? && g.tid.Some?
    requires DistinctDeep(Map(f.app)) && (m.Some? ==> DistinctDeep(m.value.claims))
    requires MintToken(c, issuer, RequestBoth(f, m), freshTid).Ok?
    requires MintToken(c, issuer, RequestBoth(g, n), freshTid).Ok?
    requires |MintToken(c, issuer, RequestBoth(f, m), freshTid).value| < TWO_64
    ensures MintToken(c, issuer, RequestBoth(f, m), freshTid) == MintToken(c, issuer, RequestBoth(g, n), freshTid)
       <==> SameFields(f, g) && SameManifests(m, n)
  {
    hide MintToken, ToMandatePlaintext, ToManifestPlaintext, TokenText, EncodeText, Seal, SealManifest, Lawful;
    hide SameFields, DistinctDeep, IsUuidV7, Same;
    var pf, sf, xf := MintAnatomy(c, issuer, RequestBoth(f, m), freshTid);
    var pg, sg, xg := MintAnatomy(c, issuer, RequestBoth(g, n), freshTid);
    var mf := ManifestAsked(c, issuer, RequestBoth(f, m), m, xf);
    var mg := ManifestAsked(c, issuer, RequestBoth(g, n), n, xg);
    HalfFitsToken(issuer, xf, sf);
    EncodedLength(sf, issuer.encoding);
    SamePlaintextIff(f, g);
    SealDecides(c, pf, pg, issuer.key, issuer.mandateAlg);
    SealedManifestsDecide(c, issuer, mf, mg);
    if m.Some? && n.Some? {
      EncodedLength(xf.value, issuer.encoding);
      SameManifestPlaintextIff(m.value, n.value);
    }
    if TokenText(issuer, xf, sf) == TokenText(issuer, xg, sg) {
      TokenTextDecides(issuer, xf, sf, xg, sg);
    }
  }
}
