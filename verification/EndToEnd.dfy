/** Minting and verifying as inverse operations on whole tokens. */
module EndToEnd {
  import opened Basics
  import opened ByteStrings
  import opened Cbor
  import opened Canonical
  import opened Types
  import opened Aead
  import opened TextCodec
  import opened Token
  import opened HalfPlaintext
  import opened HalfRoundTrip
  import opened HalfPrintParse
  import opened KeyOrder
  import opened Mint
  import opened Verify
  import opened VerifyProperties

  /** The builder state that asks for exactly these fields and no manifest. */
  function RequestOf(f: MandateFields): (q: Request)
  {
    Request(Map(f.app), f.exp, f.tid, f.iss, f.aud, f.sub, None)
  }

  // ---- what mints -----------------------------------------------------------------------------

  /** Minting's demands in full: it looks no further into the application data than this. */
  lemma MintsIff(c: Cipher, issuer: IssuerConfig, q: Request, freshTid: Uuid)
    ensures MintToken(c, issuer, q, freshTid).Ok?
       <==> q.exp.Some? && (q.aud.Some? ==> |q.aud.value| > 0)
            && IsUuidV7(if q.tid.Some? then q.tid.value else freshTid)
            && q.app.Map? && (forall e :: e in q.app.entries ==> OutsideReserved(e.key) && !ContainsNan(e.val))
            && (issuer.mandateAlg == GcmSiv ==> c.gcmSiv)
            && (q.manifestPlain.Some? ==> q.manifestPlain.value.Ok? && (issuer.manifestAlg == GcmSiv ==> c.gcmSiv))
  {
    hide TokenText, IsUuidV7, ContainsNan, EntriesOf, Assemble, IsNegativeInt;
    if q.app.Map? {
      forall e | e in q.app.entries
        ensures IsNegativeInt(e.key) <==> !OutsideReserved(e.key)
      {
        NegativeIntByLeadingByte(e.key);
      }
    }
  }

  /** Without a tid the fresh one is minted; with one, the fresh one is not looked at. */
  lemma FreshTidIsMinted(c: Cipher, issuer: IssuerConfig, q: Request, freshTid: Uuid, other: Uuid)
    ensures MintToken(c, issuer, q.(tid := None), freshTid) == MintToken(c, issuer, q.(tid := Some(freshTid)), other)
    ensures q.tid.Some? ==> MintToken(c, issuer, q, freshTid) == MintToken(c, issuer, q, other)
  {
    hide TokenText, IsUuidV7, ToMandatePlaintext, Seal, SealManifest;
  }

  /** Why minting fails, for every request that `MintsIff` does not let through: the first fault decides. */
  lemma MintErrors(c: Cipher, issuer: IssuerConfig, q: Request, freshTid: Uuid)
    ensures var r := MintToken(c, issuer, q, freshTid);
            if q.exp.None? then r == Err(MissingExp)
            else if q.aud.Some? && |q.aud.value| == 0 then r == Err(EmptyAudience)
            else if !IsUuidV7(if q.tid.Some? then q.tid.value else freshTid) then r == Err(InvalidTid)
            else if AppEntries(q.app).Err? then r == Err(AppEntries(q.app).error)
            else if issuer.mandateAlg == GcmSiv && !c.gcmSiv then r == Err(UnsupportedAlg(GcmSiv))
            else if q.manifestPlain.None? then r.Ok?
            else if q.manifestPlain.value.Err? then r == Err(q.manifestPlain.value.error)
            else if issuer.manifestAlg == GcmSiv && !c.gcmSiv then r == Err(UnsupportedAlg(GcmSiv))
            else r.Ok?
  {
    hide TokenText, IsUuidV7, AppEntries, EntriesOf, Assemble;
  }

  // ---- accepted implies mintable --------------------------------------------------------------

  lemma SealedLength(c: Cipher, plain: seq<byte>, key: Key, alg: Alg)
    requires Lawful(c)
    ensures |c.seal(plain, key, alg)| == |plain| + OVERHEAD
  {
  }

  lemma FirstIsCandidate(c: Cipher, keys: seq<Key>, sealed: seq<byte>, alg: Alg, i: nat)
    requires OpensFirst(c, keys, sealed, alg, i)
    ensures i < |keys|
  {
  }

  lemma AcceptedAnatomy(c: Cipher, s: Settings, token: string)
    returns (p: Parsed, h: SealedHalf, i: nat, plain: seq<byte>)
    requires Lawful(c) && Authenticate(c, s, token).Ok?
    ensures ParseToken(token) == Ok(p) && p.mandate.Some? && Alg.FromCode(p.mandate.value.algCode) == Some(h.alg)
    ensures p.mandate.value.text == EncodeText(h.sealed, p.encoding) && |h.sealed| <= s.maxDecodedLen
    ensures OpensFirst(c, s.keys, h.sealed, h.alg, i) && Seal(c, plain, s.keys[i], h.alg) == Ok(h.sealed)
    ensures h.sealed == c.seal(plain, s.keys[i], h.alg)
    ensures Authenticate(c, s, token) == Ok(plain) && |plain| + OVERHEAD == |h.sealed|
  {
    hide ParseToken, DecodeText, EncodeText, Utf8Len, TrialOpen, Open, OpensFirst, Lawful;
    p := ParseToken(token).value;
    h := SealedMandate(s.maxDecodedLen, token).value;
    plain := Authenticate(c, s, token).value;
    CodecBijection(p.mandate.value.text, h.sealed, p.encoding);
    i := TrialHasFirst(c, s.keys, h.sealed, h.alg);
    assert i < |s.keys| by { FirstIsCandidate(c, s.keys, h.sealed, h.alg, i); }
    OpensIffSealed(c, h.sealed, plain, s.keys[i], h.alg);
  }

  lemma MandatePartOf(p: Parsed)
    requires WellFormed(p) && p.mandate.Some?
    ensures p.mandatePart == [p.mandate.value.algCode] + p.mandate.value.text
    ensures Encoding.FromSeparator(p.separator) == Some(p.encoding)
  {
  }

  lemma MandateOnlyText(issuer: IssuerConfig, sealed: seq<byte>)
    ensures TokenText(issuer, None, sealed)
         == [issuer.encoding.Separator()] + ([issuer.mandateAlg.Code()] + EncodeText(sealed, issuer.encoding))
  {
    hide EncodeText;
  }

  /** What the policy lets through has everything minting asks for. */
  lemma PolicyMeetsMinting(s: Settings, now: i64, f: MandateFields)
    requires CheckPolicy(s, now, f).Ok?
    ensures CheckPolicy(s, now, f) == Ok(f)
    ensures f.tid.Some? && IsUuidV7(f.tid.value) && f.exp.Some? && (f.aud.Some? ==> |f.aud.value| > 0)
  {
    hide IsUuidV7, HasExpired;
  }

  /**
   * If verification accepts a token, its mandate half is byte for byte what minting emits, under
   * the first of the verifier's keys that opens it, from the very clauses verification returned.
   */
  lemma AcceptedIsMintable(
    c: Cipher, s: Settings, clock: Option<u64>, token: string, manifestAlg: Alg, freshTid: Uuid)
    returns (i: nat, alg: Alg, enc: Encoding)
    requires Lawful(c) && Clauses(c, s, clock, token).Ok?
    ensures var f := Clauses(c, s, clock, token).value;
            && f.exp.Some? && f.tid.Some? && i < |s.keys|
            && var plain := ToMandatePlaintext(f.exp.value, f.tid.value, f.iss, f.aud, f.sub, Map(f.app));
               var r := MintToken(c, IssuerConfig(s.keys[i], alg, manifestAlg, enc), RequestOf(f), freshTid);
               && r.Ok? && CarveMandate(token) == Some(r.value)
               && plain.Ok? && OpensFirst(c, s.keys, c.seal(plain.value, s.keys[i], alg), alg, i)
               && |c.seal(plain.value, s.keys[i], alg)| <= s.maxDecodedLen
  {
    hide ParseToken, EncodeText, Authenticate, FromMandatePlaintext, ToMandatePlaintext, Seal, Lawful, WellFormed;
    hide IsUuidV7, CheckPolicy, TokenText, OpensFirst;
    var p, h, k, plain := AcceptedAnatomy(c, s, token);
    i, alg, enc := k, h.alg, p.encoding;
    var f := FromMandatePlaintext(plain).value;
    FirstIsCandidate(c, s.keys, h.sealed, h.alg, i);
    PolicyMeetsMinting(s, TimeOf(s, clock), f);
    ParsePrintMandate(plain);
    ParsedIsWellFormed(token);
    MandatePartOf(p);
    MandateOnlyText(IssuerConfig(s.keys[i], alg, manifestAlg, enc), h.sealed);
    assert alg.Code() == p.mandate.value.algCode && enc.Separator() == p.separator;
  }

  // ---- mintable implies accepted --------------------------------------------------------------

  lemma MintAnatomy(c: Cipher, issuer: IssuerConfig, q: Request, freshTid: Uuid)
    returns (plain: seq<byte>, mandate: seq<byte>, manifest: Option<seq<byte>>)
    requires Lawful(c) && MintToken(c, issuer, q, freshTid).Ok?
    ensures q.exp.Some? && IsUuidV7(TidOf(q, freshTid)) && (q.aud.Some? ==> |q.aud.value| > 0)
    ensures ToMandatePlaintext(q.exp.value, TidOf(q, freshTid), q.iss, q.aud, q.sub, q.app) == Ok(plain) && |plain| > 0
    ensures Seal(c, plain, issuer.key, issuer.mandateAlg) == Ok(mandate) && |mandate| == |plain| + OVERHEAD
    ensures SealManifest(c, issuer, q.manifestPlain) == Ok(manifest)
    ensures manifest.Some? ==> |manifest.value| >= OVERHEAD
    ensures MintToken(c, issuer, q, freshTid).value == TokenText(issuer, manifest, mandate)
  {
    hide TokenText, Seal, Lawful, IsUuidV7, AppEntries, EntriesOf, Canon;
    plain := ToMandatePlaintext(q.exp.value, TidOf(q, freshTid), q.iss, q.aud, q.sub, q.app).value;
    mandate := Seal(c, plain, issuer.key, issuer.mandateAlg).value;
    manifest := SealManifest(c, issuer, q.manifestPlain).value;
    OpensIffSealed(c, mandate, plain, issuer.key, issuer.mandateAlg);
    if manifest.Some? {
      OpensIffSealed(c, manifest.value, q.manifestPlain.value.value, MANIFEST_KEY, issuer.manifestAlg);
    }
  }

  lemma EncodedHalfDecodes(h: Half, sealed: seq<byte>, enc: Encoding, max: u64)
    requires h.text == EncodeText(sealed, enc) && MIN_HALF_BYTES <= |sealed| && |h.text| <= USIZE_MAX
    ensures DecodeHalf(h, enc, max) == if |sealed| <= max then Some(sealed) else None
  {
    hide EncodeText, DecodeText, PlainChar;
    CodecBijection(h.text, sealed, enc);
    EncodedLength(sealed, enc);
    EncodedPlain(sealed, enc);
    AsciiUtf8Len(h.text);
    assert EncodedLen(|sealed|, enc) <= 2 * |sealed|;
  }

  lemma HalfFitsToken(issuer: IssuerConfig, manifest: Option<seq<byte>>, mandate: seq<byte>)
    ensures |EncodeText(mandate, issuer.encoding)| <= |TokenText(issuer, manifest, mandate)|
    ensures manifest.Some? ==> |EncodeText(manifest.value, issuer.encoding)| <= |TokenText(issuer, manifest, mandate)|
  {
    hide EncodeText;
  }

  /**
   * Authentication of a minted token, in full: too large for the cap, opened by no candidate, or
   * the plaintext under the first candidate that opens the minted half.
   */
  lemma MintedAuthenticates(c: Cipher, issuer: IssuerConfig, q: Request, freshTid: Uuid, s: Settings)
    returns (plain: seq<byte>)
    requires Lawful(c) && MintToken(c, issuer, q, freshTid).Ok?
    requires |MintToken(c, issuer, q, freshTid).value| <= USIZE_MAX
    ensures q.exp.Some? && ToMandatePlaintext(q.exp.value, TidOf(q, freshTid), q.iss, q.aud, q.sub, q.app) == Ok(plain)
    ensures CompiledIn(c, issuer.mandateAlg) && IsUuidV7(TidOf(q, freshTid)) && (q.aud.Some? ==> |q.aud.value| > 0)
    ensures var sealed := c.seal(plain, issuer.key, issuer.mandateAlg);
            Authenticate(c, s, MintToken(c, issuer, q, freshTid).value)
            == if |sealed| > s.maxDecodedLen then Err(Malformed)
               else match TrialOpen(c, s.keys, sealed, issuer.mandateAlg)
                    case None => Err(AuthFailed)
                    case Some(p) => Ok(p)
  {
    hide EncodeText, ParseToken, TokenText, MintToken, ToMandatePlaintext, TrialOpen, Open, DecodeHalf, Lawful;
    hide IsUuidV7;
    var mandate, manifest;
    plain, mandate, manifest := MintAnatomy(c, issuer, q, freshTid);
    HalfFitsToken(issuer, manifest, mandate);
    TokenTextParses(issuer, manifest, mandate);
    EncodedHalfDecodes(MandateHalfOf(issuer, mandate), mandate, issuer.encoding, s.maxDecodedLen);
  }

  /** What a verifier reads from a token minted with portable application data. */
  function MintedFields(q: Request, freshTid: Uuid): (f: MandateFields)
    requires PortableApp(q.app)
  {
    var tid := if q.tid.Some? then q.tid.value else freshTid;
    MandateFields(q.exp, Some(tid), q.iss, q.aud, q.sub, Canon(q.app).entries)
  }

  lemma SealsWhenCompiledIn(c: Cipher, plain: seq<byte>, key: Key, alg: Alg)
    requires CompiledIn(c, alg)
    ensures Seal(c, plain, key, alg) == Ok(c.seal(plain, key, alg))
  {
  }

  /** Under the first key that opens it, a minted token within the cap authenticates to its plaintext. */
  lemma MintedReadsOrNot(c: Cipher, issuer: IssuerConfig, q: Request, freshTid: Uuid, s: Settings, i: nat)
    returns (plain: seq<byte>)
    requires Lawful(c) && MintToken(c, issuer, q, freshTid).Ok?
    requires |MintToken(c, issuer, q, freshTid).value| <= USIZE_MAX
    requires i < |s.keys| && s.keys[i] == issuer.key
    requires var plain := ToMandatePlaintext(q.exp.value, TidOf(q, freshTid), q.iss, q.aud, q.sub, q.app).value;
             OpensFirst(c, s.keys, c.seal(plain, issuer.key, issuer.mandateAlg), issuer.mandateAlg, i)
    ensures q.exp.Some? && ToMandatePlaintext(q.exp.value, TidOf(q, freshTid), q.iss, q.aud, q.sub, q.app) == Ok(plain)
    ensures IsUuidV7(TidOf(q, freshTid)) && (q.aud.Some? ==> |q.aud.value| > 0)
    ensures Authenticate(c, s, MintToken(c, issuer, q, freshTid).value)
         == if |plain| + OVERHEAD > s.maxDecodedLen then Err(Malformed) else Ok(plain)
  {
    hide MintToken, ToMandatePlaintext, Authenticate, IsUuidV7, Lawful, OpensFirst, TrialOpen, Open, Seal;
    plain := MintedAuthenticates(c, issuer, q, freshTid, s);
    var sealed := c.seal(plain, issuer.key, issuer.mandateAlg);
    SealedLength(c, plain, issuer.key, issuer.mandateAlg);
    TrialFindsFirst(c, s.keys, sealed, issuer.mandateAlg, i);
    SealsWhenCompiledIn(c, plain, issuer.key, issuer.mandateAlg);
    OpensIffSealed(c, sealed, plain, issuer.key, issuer.mandateAlg);
  }

  /**
   * For every request that mints, a verifier whose first key to open the half is the minting one
   * answers: `Malformed` over the size cap, `NonCanonical` for application data that is not
   * portable, and otherwise by the policy alone on exactly the minted fields, the application map
   * in canonical order.
   */
  lemma MintableIsAcceptedIff(
    c: Cipher, issuer: IssuerConfig, q: Request, freshTid: Uuid, s: Settings, i: nat, clock: Option<u64>)
    requires Lawful(c) && MintToken(c, issuer, q, freshTid).Ok?
    requires |MintToken(c, issuer, q, freshTid).value| <= USIZE_MAX
    requires i < |s.keys| && s.keys[i] == issuer.key
    requires var plain := ToMandatePlaintext(q.exp.value, TidOf(q, freshTid), q.iss, q.aud, q.sub, q.app).value;
             OpensFirst(c, s.keys, c.seal(plain, issuer.key, issuer.mandateAlg), issuer.mandateAlg, i)
    ensures var plain := ToMandatePlaintext(q.exp.value, TidOf(q, freshTid), q.iss, q.aud, q.sub, q.app).value;
            var answer := Clauses(c, s, clock, MintToken(c, issuer, q, freshTid).value);
            && answer == (if |plain| + OVERHEAD > s.maxDecodedLen then Err(Malformed)
                          else if !PortableApp(q.app) then Err(NonCanonical)
                          else CheckPolicy(s, TimeOf(s, clock), MintedFields(q, freshTid)))
            && (answer.Ok?
                <==> |plain| + OVERHEAD <= s.maxDecodedLen && PortableApp(q.app)
                     && !HasExpired(s, TimeOf(s, clock), q.exp.value)
                     && (q.aud.Some? ==> s.audience.Some? && s.audience.value in q.aud.value))
  {
    hide MintToken, ToMandatePlaintext, FromMandatePlaintext, Authenticate, PortableApp, Canon, HasExpired, IsUuidV7;
    hide Lawful, OpensFirst, TrialOpen, Open, Seal;
    var plain := MintedReadsOrNot(c, issuer, q, freshTid, s, i);
    if |plain| + OVERHEAD <= s.maxDecodedLen {
      MintedMandateReadableIff(q.exp.value, TidOf(q, freshTid), q.iss, q.aud, q.sub, q.app);
    }
  }

  /** The unchecked terminal's answer to the same tokens: the minted fields, expired or not and whoever they are for. */
  lemma MintableReadsUnchecked(c: Cipher, issuer: IssuerConfig, q: Request, freshTid: Uuid, s: Settings, i: nat)
    requires Lawful(c) && MintToken(c, issuer, q, freshTid).Ok?
    requires |MintToken(c, issuer, q, freshTid).value| <= USIZE_MAX
    requires i < |s.keys| && s.keys[i] == issuer.key
    requires var plain := ToMandatePlaintext(q.exp.value, TidOf(q, freshTid), q.iss, q.aud, q.sub, q.app).value;
             OpensFirst(c, s.keys, c.seal(plain, issuer.key, issuer.mandateAlg), issuer.mandateAlg, i)
    ensures var plain := ToMandatePlaintext(q.exp.value, TidOf(q, freshTid), q.iss, q.aud, q.sub, q.app).value;
            ClausesUnchecked(c, s, MintToken(c, issuer, q, freshTid).value)
            == if |plain| + OVERHEAD > s.maxDecodedLen then Err(Malformed)
               else if !PortableApp(q.app) then Err(NonCanonical)
               else Ok(MintedFields(q, freshTid))
  {
    hide MintToken, ToMandatePlaintext, FromMandatePlaintext, Authenticate, PortableApp, Canon, IsUuidV7;
    hide Lawful, OpensFirst, TrialOpen, Open, Seal;
    var plain := MintedReadsOrNot(c, issuer, q, freshTid, s, i);
    if |plain| + OVERHEAD <= s.maxDecodedLen {
      MintedMandateReadableIff(q.exp.value, TidOf(q, freshTid), q.iss, q.aud, q.sub, q.app);
    }
  }

  // ---- accepted exactly when minted -----------------------------------------------------------

  /** The token's mandate half is what `issuer` mints from `f`, and its sealed bytes keep the size cap. */
  ghost predicate HalfMintedFrom(c: Cipher, issuer: IssuerConfig, f: MandateFields, cap: u64, token: string)
  {
    f.exp.Some? && f.tid.Some?
    && var plain := ToMandatePlaintext(f.exp.value, f.tid.value, f.iss, f.aud, f.sub, Map(f.app));
       var r := MintToken(c, issuer, RequestOf(f), f.tid.value);
       plain.Ok? && r.Ok? && CarveMandate(token) == Some(r.value)
       && |c.seal(plain.value, issuer.key, issuer.mandateAlg)| <= cap
  }

  /** The candidate at `i` mints the token's mandate half from `f` and is the first to open it. */
  ghost predicate FirstMintedUnder(
    c: Cipher, s: Settings, f: MandateFields, token: string, issuer: IssuerConfig, i: nat)
  {
    && HalfMintedFrom(c, issuer, f, s.maxDecodedLen, token)
    && i < |s.keys| && s.keys[i] == issuer.key
    && var plain := ToMandatePlaintext(f.exp.value, f.tid.value, f.iss, f.aud, f.sub, Map(f.app)).value;
       OpensFirst(c, s.keys, c.seal(plain, issuer.key, issuer.mandateAlg), issuer.mandateAlg, i)
  }

  /** `f` meets the policy, and its application map is portable and in canonical order. */
  ghost predicate Presentable(s: Settings, clock: Option<u64>, f: MandateFields)
  {
    && PortableApp(Map(f.app)) && Canon(Map(f.app)) == Map(f.app)
    && CheckPolicy(s, TimeOf(s, clock), f).Ok?
  }

  lemma CarvedFits(token: string)
    requires CarveMandate(token).Some?
    ensures |CarveMandate(token).value| <= |token|
  {
    hide ParseToken;
    ParsedIsWellFormed(token);
  }

  lemma MintedHalfAccepted(
    c: Cipher, s: Settings, clock: Option<u64>, issuer: IssuerConfig, f: MandateFields, token: string, i: nat)
    requires Lawful(c) && |token| <= USIZE_MAX
    requires FirstMintedUnder(c, s, f, token, issuer, i) && Presentable(s, clock, f)
    ensures Clauses(c, s, clock, token) == Ok(f)
  {
    hide MintToken, ToMandatePlaintext, Clauses, PortableApp, Canon, CarveMandate, Lawful, IsUuidV7, HasExpired;
    hide Open, OpensFirst, CheckPolicy, TimeOf;
    PolicyMeetsMinting(s, TimeOf(s, clock), f);
    CarvedFits(token);
    var plain := ToMandatePlaintext(f.exp.value, f.tid.value, f.iss, f.aud, f.sub, Map(f.app)).value;
    SealedLength(c, plain, issuer.key, issuer.mandateAlg);
    assert f == MintedFields(RequestOf(f), f.tid.value);
    MintableIsAcceptedIff(c, issuer, RequestOf(f), f.tid.value, s, i, clock);
    CarvedMandateVerifiesAlike(c, s, clock, token);
  }

  lemma AcceptedIsMinted(c: Cipher, s: Settings, clock: Option<u64>, token: string, manifestAlg: Alg)
    returns (issuer: IssuerConfig, i: nat)
    requires Lawful(c) && Clauses(c, s, clock, token).Ok?
    ensures issuer.manifestAlg == manifestAlg
    ensures FirstMintedUnder(c, s, Clauses(c, s, clock, token).value, token, issuer, i)
    ensures Presentable(s, clock, Clauses(c, s, clock, token).value)
  {
    hide ParseToken, EncodeText, Authenticate, FromMandatePlaintext, ToMandatePlaintext, MintToken, CarveMandate;
    hide Seal, Lawful, IsUuidV7, HasExpired, PortableApp, Canon, OpensFirst;
    var p, h, k, plain := AcceptedAnatomy(c, s, token);
    var f := FromMandatePlaintext(plain).value;
    PolicyMeetsMinting(s, TimeOf(s, clock), f);
    ReadAppIsCanonical(plain);
    var j, alg, enc := AcceptedIsMintable(c, s, clock, token, manifestAlg, f.tid.value);
    i := j;
    issuer := IssuerConfig(s.keys[i], alg, manifestAlg, enc);
  }

  /**
   * The mandate halves a verifier accepts are exactly what the minter produces: a token verifies
   * to `f` if and only if minting `f` under the first candidate key that opens its mandate half
   * gives that half byte for byte, the application map is portable and in canonical order, and `f`
   * meets the policy.
   */
  lemma AcceptedExactlyMinted(
    c: Cipher, s: Settings, clock: Option<u64>, token: string, f: MandateFields, manifestAlg: Alg)
    requires Lawful(c) && |token| <= USIZE_MAX
    ensures Clauses(c, s, clock, token) == Ok(f)
       <==> Presentable(s, clock, f)
            && exists issuer: IssuerConfig, i: nat ::
                 issuer.manifestAlg == manifestAlg && FirstMintedUnder(c, s, f, token, issuer, i)
  {
    hide Clauses, Presentable, FirstMintedUnder, Lawful;
    if Clauses(c, s, clock, token) == Ok(f) {
      var issuer, i := AcceptedIsMinted(c, s, clock, token, manifestAlg);
    }
    if Presentable(s, clock, f)
       && exists issuer: IssuerConfig, i: nat ::
            issuer.manifestAlg == manifestAlg && FirstMintedUnder(c, s, f, token, issuer, i) {
      var issuer: IssuerConfig, i: nat :|
        issuer.manifestAlg == manifestAlg && FirstMintedUnder(c, s, f, token, issuer, i);
      MintedHalfAccepted(c, s, clock, issuer, f, token, i);
    }
  }

  lemma OwnKeyOpensFirst(c: Cipher, s: Settings, f: MandateFields, token: string, issuer: IssuerConfig)
    requires Lawful(c) && |s.keys| == 1 && issuer.key == s.keys[0]
    requires HalfMintedFrom(c, issuer, f, s.maxDecodedLen, token)
    ensures FirstMintedUnder(c, s, f, token, issuer, 0)
  {
    hide ToMandatePlaintext, CarveMandate, TokenText, IsUuidV7, Lawful, MintToken;
    var plain, mandate, manifest := MintAnatomy(c, issuer, RequestOf(f), f.tid.value);
    OpensIffSealed(c, mandate, plain, issuer.key, issuer.mandateAlg);
  }

  /** With one candidate key there is nothing to try first: the issuer has that key. */
  lemma AcceptedExactlyMintedByOneKey(
    c: Cipher, s: Settings, clock: Option<u64>, token: string, f: MandateFields, manifestAlg: Alg)
    requires Lawful(c) && |token| <= USIZE_MAX && |s.keys| == 1
    ensures Clauses(c, s, clock, token) == Ok(f)
       <==> Presentable(s, clock, f)
            && exists issuer: IssuerConfig ::
                 issuer.key == s.keys[0] && issuer.manifestAlg == manifestAlg
                 && HalfMintedFrom(c, issuer, f, s.maxDecodedLen, token)
  {
    hide Clauses, Presentable, Lawful, ToMandatePlaintext, MintToken, OpensFirst;
    AcceptedExactlyMinted(c, s, clock, token, f, manifestAlg);
    if exists issuer: IssuerConfig ::
         issuer.key == s.keys[0] && issuer.manifestAlg == manifestAlg
         && HalfMintedFrom(c, issuer, f, s.maxDecodedLen, token) {
      var issuer: IssuerConfig :|
        issuer.key == s.keys[0] && issuer.manifestAlg == manifestAlg
        && HalfMintedFrom(c, issuer, f, s.maxDecodedLen, token);
      OwnKeyOpensFirst(c, s, f, token, issuer);
    }
  }

  // ---- manifests ------------------------------------------------------------------------------

  lemma AssembledNonEmpty(iss: Str, claims: Value)
    requires ToManifestPlaintext(iss, claims).Ok?
    ensures |ToManifestPlaintext(iss, claims).value| > 0
  {
    hide AppEntries, EntriesOf, Canon;
  }

  /**
   * Reading a minted manifest, without any key: exactly the claims that were put in, unless they
   * are not portable or the sealed half is over 64 KiB, when there is nothing to show.
   */
  lemma MintedManifestReadsIff(
    c: Cipher, issuer: IssuerConfig, q: Request, freshTid: Uuid, iss: Str, claims: Value)
    requires Lawful(c) && MintToken(c, issuer, q, freshTid).Ok?
    requires |MintToken(c, issuer, q, freshTid).value| <= USIZE_MAX
    requires q.manifestPlain == Some(ToManifestPlaintext(iss, claims))
    ensures ToManifestPlaintext(iss, claims).Ok?
    ensures Claims(c, MintToken(c, issuer, q, freshTid).value)
         == if PortableApp(claims) && |ToManifestPlaintext(iss, claims).value| + 16 <= 65536
            then Some(ManifestFields(iss, None, Canon(claims).entries))
            else None
  {
    hide EncodeText, ParseToken, TokenText, MintToken, ToMandatePlaintext, ToManifestPlaintext, FromManifestPlaintext;
    hide DecodeHalf, Open, Seal, Lawful, IsUuidV7, PortableApp, Canon;
    var plain, mandate, manifest := MintAnatomy(c, issuer, q, freshTid);
    var claimsPlain := ToManifestPlaintext(iss, claims).value;
    HalfFitsToken(issuer, manifest, mandate);
    TokenTextParses(issuer, manifest, mandate);
    OpensIffSealed(c, manifest.value, claimsPlain, MANIFEST_KEY, issuer.manifestAlg);
    AssembledNonEmpty(iss, claims);
    var half := ManifestHalfOf(issuer, manifest.value);
    EncodedHalfDecodes(half, manifest.value, issuer.encoding, DEFAULT_MAX_DECODED_LEN);
    if |manifest.value| <= DEFAULT_MAX_DECODED_LEN {
      MintedManifestReadableIff(iss, claims);
    }
  }

  /** A manifest half as a token of its own. */
  function ManifestText(sealed: seq<byte>, alg: Alg, enc: Encoding): (t: string)
  {
    EncodeText(sealed, enc) + [alg.Code()] + [enc.Separator()]
  }

  lemma CarvedIs(token: string)
    requires ParseToken(token).Ok? && ParseToken(token).value.manifest.Some?
    ensures var p := ParseToken(token).value;
            CarveManifest(token) == Some(p.manifest.value.text + [p.manifest.value.algCode] + [p.encoding.Separator()])
  {
    hide ParseToken;
    ParsedIsWellFormed(token);
  }

  /** The token's manifest half is this plaintext, sealed under the published key and encoded. */
  ghost predicate IsSealedManifest(c: Cipher, token: string, plain: seq<byte>, alg: Alg, enc: Encoding)
  {
    && CompiledIn(c, alg)
    && CarveManifest(token) == Some(ManifestText(c.seal(plain, MANIFEST_KEY, alg), alg, enc))
  }

  lemma CarvedManifestIs(token: string, alg: Alg, enc: Encoding, sealed: seq<byte>)
    requires |sealed| > 0
    ensures CarveManifest(token) == Some(ManifestText(sealed, alg, enc))
       <==> ParseToken(token).Ok? && ParseToken(token).value.encoding == enc
            && ParseToken(token).value.manifest == Some(Half(alg.Code(), EncodeText(sealed, enc)))
  {
    hide ParseToken, EncodeText, WellFormedHalf, CarveManifest;
    var half := Half(alg.Code(), EncodeText(sealed, enc));
    EncodedHalfWellFormed(alg, sealed, enc);
    var alone := Parsed(enc, enc.Separator(), Some(half), None, "");
    assert Print(alone) == ManifestText(sealed, alg, enc);
    ParseIsInverseOfPrint(ManifestText(sealed, alg, enc), alone);
    if CarveManifest(token) == Some(ManifestText(sealed, alg, enc)) {
      CarvedManifestParses(token);
    }
    if ParseToken(token).Ok? && ParseToken(token).value.encoding == enc
       && ParseToken(token).value.manifest == Some(half) {
      CarvedIs(token);
    }
  }

  lemma SealsIfOk(c: Cipher, plain: seq<byte>, key: Key, alg: Alg)
    requires Seal(c, plain, key, alg).Ok?
    ensures CompiledIn(c, alg) && Seal(c, plain, key, alg).value == c.seal(plain, key, alg)
  {
  }

  lemma OpenedManifestIsSealed(c: Cipher, token: string, plain: seq<byte>)
    requires Lawful(c) && ManifestPlaintext(c, token) == Some(plain)
    ensures 1 <= |plain| <= 65520
    ensures exists alg: Alg, enc: Encoding :: IsSealedManifest(c, token, plain, alg, enc)
  {
    hide ParseToken, EncodeText, DecodeText, Lawful, CarveManifest, ManifestText, Utf8Len, Open, Seal;
    var p := ParseToken(token).value;
    var half := p.manifest.value;
    var alg := Alg.FromCode(half.algCode).value;
    var sealed := DecodeText(half.text, p.encoding).value;
    CodecBijection(half.text, sealed, p.encoding);
    OpensIffSealed(c, sealed, plain, MANIFEST_KEY, alg);
    SealsIfOk(c, plain, MANIFEST_KEY, alg);
    CarvedManifestIs(token, alg, p.encoding, sealed);
    assert IsSealedManifest(c, token, plain, alg, p.encoding);
  }

  lemma ManifestFits(token: string)
    requires ParseToken(token).Ok? && ParseToken(token).value.manifest.Some?
    ensures |ParseToken(token).value.manifest.value.text| <= |token|
  {
    hide ParseToken, WellFormed;
    ParsedIsWellFormed(token);
  }

  lemma SealedManifestOpens(c: Cipher, token: string, plain: seq<byte>, alg: Alg, enc: Encoding)
    requires Lawful(c) && |token| <= USIZE_MAX && 1 <= |plain| <= 65520
    requires IsSealedManifest(c, token, plain, alg, enc)
    ensures ManifestPlaintext(c, token) == Some(plain)
  {
    hide ParseToken, EncodeText, Lawful, CarveManifest, ManifestText, DecodeHalf, Open, Seal;
    var sealed := c.seal(plain, MANIFEST_KEY, alg);
    SealedLength(c, plain, MANIFEST_KEY, alg);
    CarvedManifestIs(token, alg, enc, sealed);
    var half := Half(alg.Code(), EncodeText(sealed, enc));
    assert |half.text| <= |token| by { ManifestFits(token); }
    EncodedHalfDecodes(half, sealed, enc, DEFAULT_MAX_DECODED_LEN);
    SealsWhenCompiledIn(c, plain, MANIFEST_KEY, alg);
    OpensIffSealed(c, sealed, plain, MANIFEST_KEY, alg);
  }

  /**
   * The manifest halves that open are exactly the sealings, under the published key, of plaintexts
   * of 1 to 65520 bytes.
   */
  lemma ManifestOpensIffSealed(c: Cipher, token: string, plain: seq<byte>)
    requires Lawful(c) && |token| <= USIZE_MAX
    ensures ManifestPlaintext(c, token) == Some(plain)
       <==> 1 <= |plain| <= 65520 && exists alg: Alg, enc: Encoding :: IsSealedManifest(c, token, plain, alg, enc)
  {
    hide ParseToken, EncodeText, DecodeText, Lawful, CarveManifest, ManifestText, Utf8Len;
    if ManifestPlaintext(c, token) == Some(plain) {
      OpenedManifestIsSealed(c, token, plain);
    }
    if 1 <= |plain| <= 65520 {
      forall alg: Alg, enc: Encoding
        | IsSealedManifest(c, token, plain, alg, enc)
        ensures ManifestPlaintext(c, token) == Some(plain)
      {
        SealedManifestOpens(c, token, plain, alg, enc);
      }
    }
  }

  // ---- the smallest token ---------------------------------------------------------------------

  /** Only what minting always writes. */
  function Bare(exp: i64, tid: Uuid): (f: MandateFields)
  {
    NO_FIELDS.(exp := Some(exp), tid := Some(tid))
  }

  lemma EntrySizes(exp: i64, tid: Uuid)
    ensures |Encode(TidEntry(tid).key)| == 1 && |Encode(TidEntry(tid).val)| == 17
    ensures |Encode(ExpEntry(exp).key)| == 1 && |Encode(ExpEntry(exp).val)| <= 9
  {
    hide BigEndian;
  }

  lemma TwoEntries(a: Entry, b: Entry)
    ensures EncodeEntries([a, b]) == Encode(a.key) + Encode(a.val) + (Encode(b.key) + Encode(b.val))
  {
    hide Encode;
    assert [a, b][1..] == [b] && [b][1..] == [];
    assert EncodeEntries([b]) == Encode(b.key) + Encode(b.val) + [];
  }

  lemma SmallHead(f: MandateFields)
    requires |f.app| <= 10
    ensures |EncodeHead(5, |EntriesOf(f)|)| == 1
  {
    hide TidEntry, ExpEntry, AudEntry, SubEntry, IssEntry;
    assert |ReservedEntries(f)| <= 5;
  }

  lemma NoEntries()
    ensures |EncodeEntries([])| == 0
  {
  }

  lemma BareMandateSize(exp: i64, tid: Uuid)
    ensures |Assemble(EntriesOf(Bare(exp, tid)))| <= 29
  {
    hide Assemble, EntriesOf, Encode, EncodeEntries, EncodeHead, TidEntry, ExpEntry;
    var f := Bare(exp, tid);
    AssembledSize(f);
    EntrySizes(exp, tid);
    TwoEntries(TidEntry(tid), ExpEntry(exp));
    assert ReservedEntries(f) == [TidEntry(tid), ExpEntry(exp)];
    SmallHead(f);
    NoEntries();
  }

  lemma BareTextLength(issuer: IssuerConfig, mandate: seq<byte>)
    ensures |TokenText(issuer, None, mandate)| == 2 + |EncodeText(mandate, issuer.encoding)|
  {
    hide EncodeText;
  }

  lemma OnlyKeyOpensFirst(c: Cipher, key: Key, sealed: seq<byte>, alg: Alg)
    requires Open(c, sealed, key, alg).Some?
    ensures OpensFirst(c, [key], sealed, alg, 0)
  {
  }

  lemma NothingPortable()
    ensures PortableApp(Map([])) && Canon(Map([])) == Map([])
  {
  }

  /**
   * Under every lawful cipher a default issuer's token without application data mints, and a
   * default verifier with its key returns its clauses until exp and `Expired` from then on.
   */
  lemma BareTokenLivesUntilExp(c: Cipher, key: Key, exp: i64, tid: Uuid, now: i64, clock: Option<u64>)
    requires Lawful(c) && IsUuidV7(tid)
    ensures var r := MintToken(c, IssuerConfig(key, Siv, Siv, B64), RequestOf(Bare(exp, tid)), tid);
            var s := Settings([key], None, 0, Some(now), DEFAULT_MAX_DECODED_LEN);
            r.Ok? && Clauses(c, s, clock, r.value) == if now < exp then Ok(Bare(exp, tid)) else Err(Expired)
  {
    hide Assemble, EntriesOf, EncodeText, Open, Clauses, IsUuidV7, FromMandatePlaintext, Lawful, TokenText;
    hide MintToken, OpensFirst;
    var issuer, q := IssuerConfig(key, Siv, Siv, B64), RequestOf(Bare(exp, tid));
    var s := Settings([key], None, 0, Some(now), DEFAULT_MAX_DECODED_LEN);
    MintsIff(c, issuer, q, tid);
    var plain, mandate, manifest := MintAnatomy(c, issuer, q, tid);
    BareMandateSize(exp, tid);
    SealedLength(c, plain, key, Siv);
    EncodedLength(mandate, B64);
    BareTextLength(issuer, mandate);
    OpensIffSealed(c, mandate, plain, key, Siv);
    SealsWhenCompiledIn(c, plain, key, Siv);
    OnlyKeyOpensFirst(c, key, mandate, Siv);
    NothingPortable();
    MintableIsAcceptedIff(c, issuer, q, tid, s, 0, clock);
  }
}
