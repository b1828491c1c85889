/** What the verifier's answers do and do not depend on. */
module VerifyProperties {
  import opened Basics
  import opened ByteStrings
  import opened Types
  import opened Aead
  import opened TextCodec
  import opened Token
  import opened HalfPlaintext
  import opened HalfPrintParse
  import opened Mint
  import opened Verify

  // ---- the encoded-length guard ---------------------------------------------------------------

  lemma {:induction false} AsciiUtf8Len(s: string)
    requires forall c :: c in s ==> PlainChar(c)
    ensures Utf8Len(s) == |s|
  {
    if |s| > 0 {
      assert s[0] in s;
      AsciiUtf8Len(s[1..]);
    }
  }

  /** The scalar values of a text's characters. */
  function Scalars(s: string): (ns: seq<nat>)
    ensures AllScalars(ns) && |ns| == |s|
  {
    if |s| == 0 then [] else [s[0] as nat] + Scalars(s[1..])
  }

  /** The length the guard looks at is that of the text in UTF-8. */
  lemma {:induction false} Utf8LenCountsOctets(s: string)
    ensures Utf8Len(s) == |EncodeScalars(Scalars(s))|
  {
    if |s| > 0 {
      Utf8LenCountsOctets(s[1..]);
      assert Scalars(s)[1..] == Scalars(s[1..]);
    }
  }

  /**
   * The length guard in front of decoding changes no answer, saturation included: a longer text
   * fails to decode or decodes past the cap. (No text in memory is longer than a usize.)
   */
  lemma GuardIsRedundant(h: Half, enc: Encoding, max: u64)
    requires Utf8Len(h.text) <= USIZE_MAX
    ensures DecodeHalf(h, enc, max)
         == match DecodeText(h.text, enc)
            case None => None
            case Some(sealed) => if |sealed| < MIN_HALF_BYTES || |sealed| > max then None else Some(sealed)
  {
    hide DecodeText, EncodeText, Utf8Len, PlainChar;
    if DecodeText(h.text, enc).Some? {
      var sealed := DecodeText(h.text, enc).value;
      CodecBijection(h.text, sealed, enc);
      EncodedLength(sealed, enc);
      EncodedPlain(sealed, enc);
      AsciiUtf8Len(h.text);
      assert EncodedLen(|sealed|, enc) <= 2 * |sealed|;
    }
  }

  /** The floor on a half's size is exact: it shuts out the sealed empty plaintext and no other. */
  lemma FloorShutsOutOnlyEmpty(c: Cipher, plain: seq<byte>, key: Key, alg: Alg)
    requires Lawful(c)
    ensures |c.seal(plain, key, alg)| >= MIN_HALF_BYTES <==> |plain| > 0
  {
  }

  // ---- trial decryption -----------------------------------------------------------------------

  lemma {:induction false} TrialAppend(c: Cipher, keys: seq<Key>, more: seq<Key>, sealed: seq<byte>, alg: Alg)
    ensures TrialOpen(c, keys + more, sealed, alg)
         == if TrialOpen(c, keys, sealed, alg).Some? then TrialOpen(c, keys, sealed, alg)
            else TrialOpen(c, more, sealed, alg)
  {
    hide Open;
    if |keys| == 0 {
      assert keys + more == more;
    } else {
      assert (keys + more)[1..] == keys[1..] + more;
      TrialAppend(c, keys[1..], more, sealed, alg);
    }
  }

  lemma {:induction false} TrialOpensBySomeKey(c: Cipher, keys: seq<Key>, sealed: seq<byte>, alg: Alg)
    ensures TrialOpen(c, keys, sealed, alg).Some?
       ==> exists k :: k in keys && Open(c, sealed, k, alg) == TrialOpen(c, keys, sealed, alg)
    ensures TrialOpen(c, keys, sealed, alg).None? ==> forall k :: k in keys ==> Open(c, sealed, k, alg).None?
  {
    hide Open;
    if |keys| > 0 {
      TrialOpensBySomeKey(c, keys[1..], sealed, alg);
      assert keys == [keys[0]] + keys[1..];
      assert keys[0] in keys;
    }
  }

  /** The candidate at `i` opens the half, and no earlier candidate does. */
  ghost predicate OpensFirst(c: Cipher, keys: seq<Key>, sealed: seq<byte>, alg: Alg, i: nat)
  {
    i < |keys| && Open(c, sealed, keys[i], alg).Some? && forall j :: 0 <= j < i ==> Open(c, sealed, keys[j], alg).None?
  }

  /** The first key that opens decides. */
  lemma {:induction false} TrialFindsFirst(c: Cipher, keys: seq<Key>, sealed: seq<byte>, alg: Alg, i: nat)
    requires OpensFirst(c, keys, sealed, alg, i)
    ensures TrialOpen(c, keys, sealed, alg) == Open(c, sealed, keys[i], alg)
  {
    hide Open;
    if i > 0 {
      TrialFindsFirst(c, keys[1..], sealed, alg, i - 1);
    }
  }

  /** When trial decryption succeeds, some candidate was the first to open. */
  lemma {:induction false} TrialHasFirst(c: Cipher, keys: seq<Key>, sealed: seq<byte>, alg: Alg) returns (i: nat)
    requires TrialOpen(c, keys, sealed, alg).Some?
    ensures OpensFirst(c, keys, sealed, alg, i) && TrialOpen(c, keys, sealed, alg) == Open(c, sealed, keys[i], alg)
  {
    hide Open;
    if Open(c, sealed, keys[0], alg).Some? {
      i := 0;
    } else {
      var next := TrialHasFirst(c, keys[1..], sealed, alg);
      i := next + 1;
      assert forall j :: 0 < j < i ==> keys[j] == keys[1..][j - 1];
    }
  }

  /** Appending candidate keys changes no outcome other than `AuthFailed`, at every terminal. */
  lemma MoreKeysAreStable(c: Cipher, s: Settings, more: seq<Key>, clock: Option<u64>, token: string)
    ensures var t := s.(keys := s.keys + more);
            && (Authenticate(c, s, token) != Err(AuthFailed) ==> Authenticate(c, t, token) == Authenticate(c, s, token))
            && (Clauses(c, s, clock, token) != Err(AuthFailed)
                ==> Clauses(c, t, clock, token) == Clauses(c, s, clock, token))
            && (ClausesUnchecked(c, s, token) != Err(AuthFailed)
                ==> ClausesUnchecked(c, t, token) == ClausesUnchecked(c, s, token))
  {
    hide SealedMandate, TrialOpen, FromMandatePlaintext, IsUuidV7;
    match SealedMandate(s.maxDecodedLen, token)
    case Err(_) =>
    case Ok(h) => TrialAppend(c, s.keys, more, h.sealed, h.alg);
  }

  /** Only the set of keys decides whether a token authenticates, and why it does not. */
  lemma KeyOrderKeepsAuthentication(c: Cipher, s: Settings, t: Settings, token: string)
    requires t == s.(keys := t.keys) && forall k :: k in s.keys <==> k in t.keys
    ensures Authenticate(c, s, token).Ok? <==> Authenticate(c, t, token).Ok?
    ensures Authenticate(c, s, token).Err? ==> Authenticate(c, t, token) == Authenticate(c, s, token)
  {
    hide SealedMandate, TrialOpen, Open;
    match SealedMandate(s.maxDecodedLen, token)
    case Err(_) =>
    case Ok(h) =>
      TrialOpensBySomeKey(c, s.keys, h.sealed, h.alg);
      TrialOpensBySomeKey(c, t.keys, h.sealed, h.alg);
  }

  /** No two different candidate keys open the token's mandate half. */
  ghost predicate AtMostOneOpens(c: Cipher, s: Settings, token: string)
  {
    var r := SealedMandate(s.maxDecodedLen, token);
    r.Ok? ==>
      forall k, l ::
        (k in s.keys && l in s.keys
         && Open(c, r.value.sealed, k, r.value.alg).Some? && Open(c, r.value.sealed, l, r.value.alg).Some?)
        ==> k == l
  }

  /** When at most one key opens the half, the order of keys changes no result at all. */
  lemma KeyOrderIrrelevant(c: Cipher, s: Settings, t: Settings, clock: Option<u64>, token: string)
    requires t == s.(keys := t.keys) && (forall k :: k in s.keys <==> k in t.keys)
    requires AtMostOneOpens(c, s, token)
    ensures Authenticate(c, s, token) == Authenticate(c, t, token)
    ensures Clauses(c, s, clock, token) == Clauses(c, t, clock, token)
    ensures ClausesUnchecked(c, s, token) == ClausesUnchecked(c, t, token)
  {
    hide SealedMandate, TrialOpen, Open, FromMandatePlaintext, IsUuidV7;
    match SealedMandate(s.maxDecodedLen, token)
    case Err(_) =>
    case Ok(h) =>
      TrialOpensBySomeKey(c, s.keys, h.sealed, h.alg);
      TrialOpensBySomeKey(c, t.keys, h.sealed, h.alg);
  }

  /** One key that authenticates is enough when no other key opens the half. */
  lemma OneKeyDecides(c: Cipher, s: Settings, key: Key, token: string)
    requires key in s.keys && AtMostOneOpens(c, s, token)
    requires Authenticate(c, s.(keys := [key]), token).Ok?
    ensures Authenticate(c, s, token) == Authenticate(c, s.(keys := [key]), token)
  {
    hide SealedMandate, Open, TrialOpen;
    var h := SealedMandate(s.maxDecodedLen, token).value;
    TrialOpensBySomeKey(c, s.keys, h.sealed, h.alg);
    TrialOpensBySomeKey(c, [key], h.sealed, h.alg);
  }

  // ---- carving --------------------------------------------------------------------------------

  /** The verifier reads nothing but the mandate half. */
  lemma SameMandateSameAnswers(c: Cipher, s: Settings, clock: Option<u64>, a: string, b: string)
    requires ParseToken(a).Ok? && ParseToken(b).Ok?
    requires ParseToken(a).value.encoding == ParseToken(b).value.encoding
    requires ParseToken(a).value.mandate == ParseToken(b).value.mandate
    ensures Authenticate(c, s, a) == Authenticate(c, s, b)
    ensures Clauses(c, s, clock, a) == Clauses(c, s, clock, b)
    ensures ClausesUnchecked(c, s, a) == ClausesUnchecked(c, s, b)
  {
    hide ParseToken, DecodeHalf, TrialOpen, FromMandatePlaintext;
  }

  lemma SameManifestSameAnswers(c: Cipher, a: string, b: string)
    requires ParseToken(a).Ok? && ParseToken(b).Ok?
    requires ParseToken(a).value.encoding == ParseToken(b).value.encoding
    requires ParseToken(a).value.manifest == ParseToken(b).value.manifest
    ensures ManifestPlaintext(c, a) == ManifestPlaintext(c, b)
    ensures Claims(c, a) == Claims(c, b)
  {
    hide ParseToken, DecodeHalf, FromManifestPlaintext;
  }

  /** The carved mandate verifies exactly as the whole token, at every terminal. */
  lemma CarvedMandateVerifiesAlike(c: Cipher, s: Settings, clock: Option<u64>, token: string)
    requires CarveMandate(token).Some?
    ensures var carved := CarveMandate(token).value;
            && Authenticate(c, s, carved) == Authenticate(c, s, token)
            && Clauses(c, s, clock, carved) == Clauses(c, s, clock, token)
            && ClausesUnchecked(c, s, carved) == ClausesUnchecked(c, s, token)
  {
    hide CarveMandate, ParseToken;
    CarvedMandateParses(token);
    SameMandateSameAnswers(c, s, clock, CarveMandate(token).value, token);
  }

  /** The carved manifest reads exactly as the whole token. */
  lemma CarvedManifestReadsAlike(c: Cipher, token: string)
    requires CarveManifest(token).Some?
    ensures ManifestPlaintext(c, CarveManifest(token).value) == ManifestPlaintext(c, token)
    ensures Claims(c, CarveManifest(token).value) == Claims(c, token)
  {
    hide CarveManifest, ParseToken;
    CarvedManifestParses(token);
    SameManifestSameAnswers(c, CarveManifest(token).value, token);
  }

  lemma SeparatorsDecide(p: Parsed, q: Parsed)
    requires WellFormed(p) && WellFormed(q) && p.separator == q.separator
    ensures p.encoding == q.encoding
  {
  }

  /** Nothing binds the halves: a spliced token reads as the one and verifies as the other. */
  lemma SpliceReadsAndVerifies(c: Cipher, s: Settings, clock: Option<u64>, a: string, b: string)
    requires CarveManifest(a).Some? && CarveMandate(b).Some?
    requires ParseToken(a).value.separator == ParseToken(b).value.separator
    ensures var spliced := CarveManifest(a).value + CarveMandate(b).value[1..];
            && Claims(c, spliced) == Claims(c, a)
            && Clauses(c, s, clock, spliced) == Clauses(c, s, clock, b)
  {
    hide ParseToken, WellFormed, Claims, Clauses;
    var spliced := CarveManifest(a).value + CarveMandate(b).value[1..];
    SpliceParses(a, b);
    ParsedIsWellFormed(a);
    ParsedIsWellFormed(b);
    SeparatorsDecide(ParseToken(a).value, ParseToken(b).value);
    SameManifestSameAnswers(c, spliced, a);
    SameMandateSameAnswers(c, s, clock, spliced, b);
  }

  // ---- the policy -----------------------------------------------------------------------------

  /**
   * Without an injected time the clock is the time: its seconds if they fit an i64, 0 before the
   * epoch, and otherwise what the cast leaves. With one, the clock is not looked at.
   */
  lemma ClockIsTheTime(c: Cipher, s: Settings, token: string, secs: u64, other: Option<u64>)
    ensures var unset := s.(now := None);
            && (secs <= I64_MAX
                ==> Clauses(c, unset, Some(secs), token) == Clauses(c, s.(now := Some(secs)), other, token))
            && (secs > I64_MAX
                ==> Clauses(c, unset, Some(secs), token) == Clauses(c, s.(now := Some(secs - TWO_64)), other, token))
            && Clauses(c, unset, None, token) == Clauses(c, s.(now := Some(0)), other, token)
            && (s.now.Some? ==> Clauses(c, s, Some(secs), token) == Clauses(c, s, other, token))
  {
    hide SealedMandate, TrialOpen, FromMandatePlaintext, IsUuidV7;
  }

  /** Version 7 in the sixth octet and the variant 0b10 in the eighth, whatever the other bits. */
  lemma UuidV7Iff(u: Uuid)
    ensures IsUuidV7(u) <==> 0x70 <= u[6] <= 0x7f && 0x80 <= u[8] <= 0xbf
  {
  }

  /** Fields that pass tid and exp. */
  ghost predicate Timely(f: MandateFields, now: i64, leeway: i64)
  {
    && f.tid.Some? && IsUuidV7(f.tid.value) && f.exp.Some?
    && now as int < f.exp.value as int + leeway as int && now < I64_MAX
  }

  /** Exactly why the policy turns clauses down, and that it gives no other reason. */
  lemma PolicyReasons(c: Cipher, s: Settings, clock: Option<u64>, token: string, f: MandateFields, now: i64)
    requires AuthenticateAndDecode(c, s, token) == Ok(f) && s.now == Some(now) && 0 <= s.leeway
    ensures var answer := Clauses(c, s, clock, token);
            && (answer == Err(BadTid) <==> f.tid.None? || !IsUuidV7(f.tid.value))
            && (answer == Err(MissingClause) <==> f.tid.Some? && IsUuidV7(f.tid.value) && f.exp.None?)
            && (answer == Err(Expired)
                <==> f.tid.Some? && IsUuidV7(f.tid.value) && f.exp.Some? && !Timely(f, now, s.leeway))
            && (answer == Err(AudienceMismatch)
                <==> Timely(f, now, s.leeway) && f.aud.Some?
                     && (s.audience.None? || s.audience.value !in f.aud.value))
            && (answer == Ok(f)
                <==> Timely(f, now, s.leeway)
                     && (f.aud.Some? ==> s.audience.Some? && s.audience.value in f.aud.value))
            && (answer.Ok? ==> answer == Ok(f))
            && (answer.Err? ==> answer.error in {BadTid, MissingClause, Expired, AudienceMismatch})
  {
    hide AuthenticateAndDecode, IsUuidV7;
  }

  /** The unchecked terminal returns whatever authenticates and reads, given a tid and an exp of any value. */
  lemma UncheckedIff(c: Cipher, s: Settings, token: string, plain: seq<byte>, f: MandateFields)
    requires Authenticate(c, s, token) == Ok(plain)
    ensures ClausesUnchecked(c, s, token) == Ok(f)
       <==> FromMandatePlaintext(plain) == Ok(f) && f.tid.Some? && f.exp.Some?
    ensures FromMandatePlaintext(plain) == Ok(f) && f.tid.None? ==> ClausesUnchecked(c, s, token) == Err(BadTid)
    ensures FromMandatePlaintext(plain) == Ok(f) && f.tid.Some? && f.exp.None?
        ==> ClausesUnchecked(c, s, token) == Err(MissingClause)
    ensures FromMandatePlaintext(plain).Err?
        ==> ClausesUnchecked(c, s, token) == Err(FromMandatePlaintext(plain).error)
  {
    hide Authenticate, FromMandatePlaintext;
  }

  /** Audience, leeway and time mean nothing to the unchecked terminal. */
  lemma UncheckedIgnoresPolicy(c: Cipher, s: Settings, t: Settings, token: string)
    requires s.keys == t.keys && s.maxDecodedLen == t.maxDecodedLen
    ensures ClausesUnchecked(c, s, token) == ClausesUnchecked(c, t, token)
  {
    hide SealedMandate, TrialOpen, FromMandatePlaintext;
  }

  /**
   * The checked terminal accepts exactly what the unchecked one does with a UUIDv7 tid, an
   * unexpired exp, and, where there is an aud, this verifier in it.
   */
  lemma CheckedIffUncheckedAndPolicy(c: Cipher, s: Settings, clock: Option<u64>, token: string, f: MandateFields)
    ensures Clauses(c, s, clock, token) == Ok(f)
       <==> ClausesUnchecked(c, s, token) == Ok(f)
            && f.tid.Some? && IsUuidV7(f.tid.value)
            && f.exp.Some? && TimeOf(s, clock) < SaturatingAdd(f.exp.value, s.leeway)
            && (f.aud.Some? ==> s.audience.Some? && s.audience.value in f.aud.value)
  {
    hide AuthenticateAndDecode, IsUuidV7, TimeOf;
  }

  // ---- manifests are not mandates -------------------------------------------------------------

  /** A plaintext that reads as a manifest is rejected as a mandate, whoever sealed it and whenever. */
  lemma ManifestIsNoMandate(c: Cipher, s: Settings, clock: Option<u64>, token: string)
    ensures Authenticate(c, s, token).Ok? && FromManifestPlaintext(Authenticate(c, s, token).value).Some?
        ==> Clauses(c, s, clock, token) == Err(BadTid) && ClausesUnchecked(c, s, token) == Err(BadTid)
  {
    hide Authenticate, FromManifestPlaintext, FromMandatePlaintext;
    match Authenticate(c, s, token)
    case Err(_) =>
    case Ok(plain) =>
      if FromManifestPlaintext(plain).Some? {
        ManifestReadsAsTidlessMandate(plain, FromManifestPlaintext(plain).value);
      }
  }

  // ---- expiry ---------------------------------------------------------------------------------

  /** What is accepted at one time is accepted, with the same clauses, at every earlier time. */
  lemma AcceptedEarlier(c: Cipher, s: Settings, clock: Option<u64>, token: string, earlier: i64, later: i64)
    requires earlier <= later
    ensures var late := Clauses(c, s.(now := Some(later)), clock, token);
            late.Ok? ==> Clauses(c, s.(now := Some(earlier)), clock, token) == late
  {
    hide SealedMandate, TrialOpen, FromMandatePlaintext;
  }

  /** Acceptance is bounded over the mathematical integers: never sixty seconds past exp or later. */
  lemma AcceptedBeforeExpiry(c: Cipher, s: Settings, clock: Option<u64>, token: string)
    requires 0 <= s.leeway <= MAX_LEEWAY
    ensures match Clauses(c, s, clock, token)
            case Ok(f) =>
              f.exp.Some? && TimeIsBefore(s, clock, f.exp.value as int + s.leeway as int)
              && f.exp.value as int + s.leeway as int <= f.exp.value as int + 60
            case Err(_) => true
  {
    hide SealedMandate, TrialOpen, FromMandatePlaintext, IsUuidV7;
  }

  /** The clock at minting, as whole seconds since the epoch; a clock before the epoch counts as 0. */
  function MintTime(clock: Option<u64>): (secs: nat)
  {
    if clock.Some? then clock.value else 0
  }

  /** The promised end of life, over the mathematical integers but no later than the last i64. */
  function Deadline(clock: Option<u64>, ttl: u64): (end: int)
    ensures 0 <= end <= I64_MAX as int
  {
    var end := MintTime(clock) as int + ttl as int;
    if end < I64_MAX as int then end else I64_MAX as int
  }

  /** The token lives at every time before its deadline. */
  ghost predicate LivesUntilDeadline(s: Settings, clock: Option<u64>, ttl: u64)
  {
    forall now: i64 :: now as int < Deadline(clock, ttl) ==> !HasExpired(s, now, ExpiryAfter(clock, ttl))
  }

  /** The clock fits an i64, or the leeway makes up for the 2^64 seconds that the cast takes away. */
  predicate CastCostsNothing(s: Settings, clock: Option<u64>, ttl: u64)
  {
    MintTime(clock) <= I64_MAX
    || MintTime(clock) + (if ttl <= I64_MAX then ttl else I64_MAX) + s.leeway >= TWO_64 + I64_MAX
  }

  /**
   * Despite both saturations, a token minted with `expires_in` lives until the mint time plus the
   * ttl, or the last i64, exactly when the clock fits an i64 or the leeway makes up for the cast.
   */
  lemma ExpiresInKeepsItsPromiseIff(s: Settings, clock: Option<u64>, ttl: u64)
    requires s.leeway >= 0
    ensures LivesUntilDeadline(s, clock, ttl) <==> CastCostsNothing(s, clock, ttl)
  {
    var exp := ExpiryAfter(clock, ttl);
    if !CastCostsNothing(s, clock, ttl) {
      var end := SaturatingAdd(exp, s.leeway);
      assert end as int < Deadline(clock, ttl) && HasExpired(s, end, exp);
    }
  }

  /** No leeway a verifier can have makes up for the cast, but in the last minute of u64 clocks. */
  lemma ExpiresInWithinLeeway(s: Settings, clock: Option<u64>, ttl: u64)
    requires 0 <= s.leeway <= MAX_LEEWAY
    ensures MintTime(clock) <= I64_MAX ==> LivesUntilDeadline(s, clock, ttl)
    ensures I64_MAX < MintTime(clock) < TWO_64 - 60 ==> !LivesUntilDeadline(s, clock, ttl)
  {
    ExpiresInKeepsItsPromiseIff(s, clock, ttl);
  }

  /** At the first clock that the cast wraps, a token minted for one second has long expired at the epoch. */
  lemma WrappedClockMintsExpired(s: Settings, now: i64)
    requires 0 <= s.leeway <= MAX_LEEWAY && now >= 0
    ensures ExpiryAfter(Some(TWO_63), 1) == -TWO_63 + 1
    ensures HasExpired(s, now, ExpiryAfter(Some(TWO_63), 1))
    ensures Deadline(Some(TWO_63), 1) == I64_MAX as int
  {
  }

  /** Nor does it live longer: from the deadline plus the verifier's leeway on it has expired. */
  lemma ExpiresInEndsOnTime(s: Settings, clock: Option<u64>, ttl: u64, now: i64)
    requires s.leeway >= 0 && now as int >= Deadline(clock, ttl) + s.leeway as int
    ensures HasExpired(s, now, ExpiryAfter(clock, ttl))
  {
  }
}
