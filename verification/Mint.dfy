/** Minting: an issuer, a builder for one token, and the token's assembly in a single allocation. */
module Mint {
  import opened Basics
  import opened ByteStrings
  import opened Cbor
  import opened Types
  import opened Aead
  import opened TextCodec
  import opened TextBuffer
  import opened Token
  import opened HalfPlaintext

  datatype IssuerConfig = IssuerConfig(key: Key, mandateAlg: Alg, manifestAlg: Alg, encoding: Encoding)

  /** What a builder has been told so far. */
  datatype Request = Request(
    app: Value, exp: Option<i64>, tid: Option<Uuid>, iss: Option<Str>, aud: Option<seq<Str>>, sub: Option<Str>,
    manifestPlain: Option<Result<seq<byte>, MintError>>)

  /** Seconds since the epoch; 0 when the clock is before it. */
  function NowUnix(clock: Option<u64>): (now: i64)
  {
    match clock
    case Some(secs) => WrapToI64(secs)
    case None => 0
  }

  function ExpiryAfter(clock: Option<u64>, ttl: u64): (exp: i64)
  {
    SaturatingAdd(NowUnix(clock), if ttl <= I64_MAX then ttl else I64_MAX)
  }

  function TokenText(issuer: IssuerConfig, manifest: Option<seq<byte>>, mandate: seq<byte>): (t: string)
  {
    (if manifest.Some? then EncodeText(manifest.value, issuer.encoding) + [issuer.manifestAlg.Code()] else "")
    + [issuer.encoding.Separator()]
    + [issuer.mandateAlg.Code()] + EncodeText(mandate, issuer.encoding)
  }

  function SealManifest(c: Cipher, issuer: IssuerConfig, plain: Option<Result<seq<byte>, MintError>>)
    : (r: Result<Option<seq<byte>>, MintError>)
  {
    match plain
    case None => Ok(None)
    case Some(Err(e)) => Err(e)
    case Some(Ok(p)) =>
      match Seal(c, p, MANIFEST_KEY, issuer.manifestAlg)
      case Err(e) => Err(e)
      case Ok(sealed) => Ok(Some(sealed))
  }

  /** The tid that will be minted: the one asked for, or a fresh one. */
  function TidOf(q: Request, freshTid: Uuid): (tid: Uuid)
  {
    if q.tid.Some? then q.tid.value else freshTid
  }

  function MintToken(c: Cipher, issuer: IssuerConfig, q: Request, freshTid: Uuid): (r: Result<string, MintError>)
  {
    if q.exp.None? then Err(MissingExp)
    else if q.aud.Some? && |q.aud.value| == 0 then Err(EmptyAudience)
    else if !IsUuidV7(TidOf(q, freshTid)) then Err(InvalidTid)
    else
      match ToMandatePlaintext(q.exp.value, TidOf(q, freshTid), q.iss, q.aud, q.sub, q.app)
      case Err(e) => Err(e)
      case Ok(plain) =>
        match Seal(c, plain, issuer.key, issuer.mandateAlg)
        case Err(e) => Err(e)
        case Ok(mandate) =>
          match SealManifest(c, issuer, q.manifestPlain)
          case Err(e) => Err(e)
          case Ok(manifest) => Ok(TokenText(issuer, manifest, mandate))
  }

  /**
   * Assembles the token in one allocation. The capacity computed beforehand is exactly what the
   * pushes fill.
   */
  method AssembleToken(issuer: IssuerConfig, manifest: Option<seq<byte>>, mandate: seq<byte>) returns (token: Buffer)
    ensures fresh(token)
    ensures token.text == TokenText(issuer, manifest, mandate)
    ensures |token.text| == token.capacity
  {
    hide EncodeText;
    var enc := issuer.encoding;
    var cap :=
      (if manifest.Some? then EncodedLen(|manifest.value|, enc) + 1 else 0) + 1 + 1 + EncodedLen(|mandate|, enc);
    token := new Buffer.WithCapacity(cap);
    if manifest.Some? {
      EncodeInto(manifest.value, enc, token);
      token.Push(issuer.manifestAlg.Code());
      EncodedLength(manifest.value, enc);
    }
    token.Push(enc.Separator());
    token.Push(issuer.mandateAlg.Code());
    EncodeInto(mandate, enc, token);
    EncodedLength(mandate, enc);
    if manifest.Some? {
      assert token.text == TokenText(issuer, manifest, mandate);
    }
  }

  class Issuer {
    var key: Key
    var mandateAlg: Alg
    var manifestAlg: Alg
    var encoding: Encoding

    function Config(): IssuerConfig
      reads this
    {
      IssuerConfig(key, mandateAlg, manifestAlg, encoding)
    }

    constructor (key: Key)
      ensures Config() == IssuerConfig(key, Siv, Siv, B64)
    {
      this.key := key;
      mandateAlg := Siv;
      manifestAlg := Siv;
      encoding := B64;
    }

    method SetAlg(alg: Alg)
      modifies this
      ensures Config() == old(Config()).(mandateAlg := alg)
    {
      mandateAlg := alg;
    }

    method SetManifestAlg(alg: Alg)
      modifies this
      ensures Config() == old(Config()).(manifestAlg := alg)
    {
      manifestAlg := alg;
    }

    method SetEncoding(encoding: Encoding)
      modifies this
      ensures Config() == old(Config()).(encoding := encoding)
    {
      this.encoding := encoding;
    }
  }

  class MintBuilder {
    const issuer: IssuerConfig
    const app: Value
    var exp: Option<i64>
    var tid: Option<Uuid>
    var iss: Option<Str>
    var aud: Option<seq<Str>>
    var sub: Option<Str>
    var manifestPlain: Option<Result<seq<byte>, MintError>>

    function Asked(): Request
      reads this
    {
      Request(app, exp, tid, iss, aud, sub, manifestPlain)
    }

    constructor (issuer: IssuerConfig, app: Value)
      ensures this.issuer == issuer
      ensures Asked() == Request(app, None, None, None, None, None, None)
    {
      this.issuer := issuer;
      this.app := app;
      exp, tid, iss, aud, sub, manifestPlain := None, None, None, None, None, None;
    }

    method Exp(exp: i64)
      modifies this
      ensures Asked() == old(Asked()).(exp := Some(exp))
    {
      this.exp := Some(exp);
    }

    /** Sets the expiry as a duration from now, saturating instead of wrapping. */
    method ExpiresIn(ttl: u64, clock: Option<u64>)
      modifies this
      ensures Asked() == old(Asked()).(exp := Some(ExpiryAfter(clock, ttl)))
    {
      var now := NowUnix(clock);
      var bounded: i64 := if ttl <= I64_MAX then ttl else I64_MAX;
      exp := Some(SaturatingAdd(now, bounded));
    }

    method Tid(tid: Uuid)
      modifies this
      ensures Asked() == old(Asked()).(tid := Some(tid))
    {
      this.tid := Some(tid);
    }

    method IssuedBy(iss: Str)
      modifies this
      ensures Asked() == old(Asked()).(iss := Some(iss))
    {
      this.iss := Some(iss);
    }

    method Audience(audiences: seq<Str>)
      modifies this
      ensures Asked() == old(Asked()).(aud := Some(audiences))
    {
      aud := Some(audiences);
    }

    method Subject(sub: Str)
      modifies this
      ensures Asked() == old(Asked()).(sub := Some(sub))
    {
      this.sub := Some(sub);
    }

    /** Attaches a manifest; a failure to build it surfaces when minting. */
    method Manifest(iss: Str, claims: Value)
      modifies this
      ensures Asked() == old(Asked()).(manifestPlain := Some(ToManifestPlaintext(iss, claims)))
    {
      var plain := BuildManifestPlaintext(iss, claims);
      manifestPlain := Some(plain);
    }

    method MintWith(c: Cipher, freshTid: Uuid) returns (r: Result<string, MintError>)
      ensures r == MintToken(c, issuer, Asked(), freshTid)
    {
      hide TokenText, ToMandatePlaintext, Seal;
      if exp.None? {
        return Err(MissingExp);
      }
      if aud.Some? && |aud.value| == 0 {
        return Err(EmptyAudience);
      }
      var theTid := if tid.Some? then tid.value else freshTid;
      if !IsUuidV7(theTid) {
        return Err(InvalidTid);
      }
      var plain := BuildMandatePlaintext(exp.value, theTid, iss, aud, sub, app);
      if plain.Err? {
        return Err(plain.error);
      }
      var mandateSealed := Seal(c, plain.value, issuer.key, issuer.mandateAlg);
      if mandateSealed.Err? {
        return Err(mandateSealed.error);
      }
      var manifestSealed := None;
      if manifestPlain.Some? {
        if manifestPlain.value.Err? {
          return Err(manifestPlain.value.error);
        }
        var sealed := Seal(c, manifestPlain.value.value, MANIFEST_KEY, issuer.manifestAlg);
        if sealed.Err? {
          return Err(sealed.error);
        }
        manifestSealed := Some(sealed.value);
      }
      var token := AssembleToken(issuer, manifestSealed, mandateSealed.value);
      return Ok(token.text);
    }
  }

  // ---- what is minted parses ------------------------------------------------------------------

  function MandateHalfOf(issuer: IssuerConfig, sealed: seq<byte>): (h: Half)
  {
    Half(issuer.mandateAlg.Code(), EncodeText(sealed, issuer.encoding))
  }

  function ManifestHalfOf(issuer: IssuerConfig, sealed: seq<byte>): (h: Half)
  {
    Half(issuer.manifestAlg.Code(), EncodeText(sealed, issuer.encoding))
  }

  function ParsedOf(issuer: IssuerConfig, manifest: Option<seq<byte>>, mandate: seq<byte>): (p: Parsed)
  {
    Parsed(issuer.encoding, issuer.encoding.Separator(),
           if manifest.Some? then Some(ManifestHalfOf(issuer, manifest.value)) else None,
           Some(MandateHalfOf(issuer, mandate)),
           [issuer.mandateAlg.Code()] + EncodeText(mandate, issuer.encoding))
  }

  lemma EncodedHalfWellFormed(alg: Alg, sealed: seq<byte>, enc: Encoding)
    requires |sealed| > 0
    ensures WellFormedHalf(Half(alg.Code(), EncodeText(sealed, enc)))
  {
    hide EncodeText;
    EncodedLength(sealed, enc);
    EncodedPlain(sealed, enc);
  }

  /** An assembled token parses into exactly the halves it was made of. */
  lemma TokenTextParses(issuer: IssuerConfig, manifest: Option<seq<byte>>, mandate: seq<byte>)
    requires |mandate| > 0 && (manifest.Some? ==> |manifest.value| > 0)
    ensures ParseToken(TokenText(issuer, manifest, mandate)) == Ok(ParsedOf(issuer, manifest, mandate))
  {
    hide EncodeText, ParseToken, WellFormedHalf;
    var p := ParsedOf(issuer, manifest, mandate);
    EncodedHalfWellFormed(issuer.mandateAlg, mandate, issuer.encoding);
    if manifest.Some? { EncodedHalfWellFormed(issuer.manifestAlg, manifest.value, issuer.encoding); }
    assert Print(p) == TokenText(issuer, manifest, mandate);
    ParseIsInverseOfPrint(TokenText(issuer, manifest, mandate), p);
  }
}
