/** Verifying a token's mandate under candidate keys and reading its manifest without any. */
module Verify {
  import opened Basics
  import opened ByteStrings
  import opened Types
  import opened Aead
  import opened TextCodec
  import opened Token
  import opened HalfPlaintext
  import opened Mint

  const MIN_HALF_BYTES: nat := 17
  const MAX_LEEWAY: i64 := 60
  const DEFAULT_MAX_DECODED_LEN: u64 := 65536

  datatype Settings = Settings(
    keys: seq<Key>, audience: Option<Str>, leeway: i64, now: Option<i64>, maxDecodedLen: u64)

  /** Bytes of a text's UTF-8 encoding, which is what Rust's `str::len` counts. */
  function Utf8Len(s: string): (n: nat)
    ensures n >= |s|
  {
    if |s| == 0 then 0
    else
      var c := s[0] as int;
      (if c < 0x80 then 1 else if c < 0x800 then 2 else if c < 0x1_0000 then 3 else 4) + Utf8Len(s[1..])
  }

  /** The cheap guard in front of decoding: longer texts cannot fit under the cap. */
  function EncodedCap(maxDecodedLen: u64): (cap: u64)
  {
    SaturatingUsize(SaturatingUsize(maxDecodedLen * 2) + 8)
  }

  /** A half's bytes, within the size bounds. */
  function DecodeHalf(h: Half, enc: Encoding, maxDecodedLen: u64): (r: Option<seq<byte>>)
  {
    if Utf8Len(h.text) > EncodedCap(maxDecodedLen) then None
    else match DecodeText(h.text, enc)
      case None => None
      case Some(sealed) => if |sealed| < MIN_HALF_BYTES || |sealed| > maxDecodedLen then None else Some(sealed)
  }

  /** The plaintext under the first candidate key that opens the half. */
  function TrialOpen(c: Cipher, keys: seq<Key>, sealed: seq<byte>, alg: Alg): (r: Option<seq<byte>>)
  {
    if |keys| == 0 then None
    else
      var first := Open(c, sealed, keys[0], alg);
      if first.Some? then first else TrialOpen(c, keys[1..], sealed, alg)
  }

  datatype SealedHalf = SealedHalf(sealed: seq<byte>, alg: Alg)

  /** Everything up to decryption: structure, algorithm code, text codec and size bounds. */
  function SealedMandate(maxDecodedLen: u64, token: string): (r: Result<SealedHalf, Reason>)
  {
    match ParseToken(token)
    case Err(_) => Err(Malformed)
    case Ok(p) =>
      if p.mandate.None? then Err(EmptyMandate)
      else
        var h := p.mandate.value;
        var alg := Alg.FromCode(h.algCode);
        if alg.None? then Err(Unsupported)
        else match DecodeHalf(h, p.encoding, maxDecodedLen)
          case None => Err(Malformed)
          case Some(sealed) => Ok(SealedHalf(sealed, alg.value))
  }

  function Authenticate(c: Cipher, s: Settings, token: string): (r: Result<seq<byte>, Reason>)
  {
    match SealedMandate(s.maxDecodedLen, token)
    case Err(e) => Err(e)
    case Ok(h) =>
      match TrialOpen(c, s.keys, h.sealed, h.alg)
      case None => Err(AuthFailed)
      case Some(plain) => Ok(plain)
  }

  function AuthenticateAndDecode(c: Cipher, s: Settings, token: string): (r: Result<MandateFields, Reason>)
  {
    match Authenticate(c, s, token)
    case Err(e) => Err(e)
    case Ok(plain) => FromMandatePlaintext(plain)
  }

  predicate HasExpired(s: Settings, now: i64, exp: i64)
  {
    now >= SaturatingAdd(exp, s.leeway)
  }

  function TimeOf(s: Settings, clock: Option<u64>): (now: i64)
  {
    if s.now.Some? then s.now.value else NowUnix(clock)
  }

  /** The value policy on tid, exp and aud, in that order. */
  function CheckPolicy(s: Settings, now: i64, f: MandateFields): (r: Result<MandateFields, Reason>)
  {
    if f.tid.None? || !IsUuidV7(f.tid.value) then Err(BadTid)
    else if f.exp.None? then Err(MissingClause)
    else if HasExpired(s, now, f.exp.value) then Err(Expired)
    else if f.aud.Some? && (|f.aud.value| == 0 || s.audience.None? || s.audience.value !in f.aud.value) then
      Err(AudienceMismatch)
    else Ok(f)
  }

  function Clauses(c: Cipher, s: Settings, clock: Option<u64>, token: string): (r: Result<MandateFields, Reason>)
  {
    match AuthenticateAndDecode(c, s, token)
    case Err(e) => Err(e)
    case Ok(f) => CheckPolicy(s, TimeOf(s, clock), f)
  }

  function ClausesUnchecked(c: Cipher, s: Settings, token: string): (r: Result<MandateFields, Reason>)
  {
    match AuthenticateAndDecode(c, s, token)
    case Err(e) => Err(e)
    case Ok(f) => if f.tid.None? then Err(BadTid) else if f.exp.None? then Err(MissingClause) else Ok(f)
  }

  /** The verifier's time is before `end`: the injected time, or else the clock's own seconds. */
  ghost predicate TimeIsBefore(s: Settings, clock: Option<u64>, end: int)
  {
    match (s.now, clock)
    case (Some(now), _) => now as int < end
    case (None, None) => 0 < end
    case (None, Some(secs)) => secs <= I64_MAX ==> secs as int < end
  }

  /** Every string is compared; there is no early exit. */
  method AudContains(aud: seq<Str>, me: Str) returns (hit: bool)
    ensures hit <==> me in aud
  {
    hit := false;
    for i := 0 to |aud|
      invariant hit <==> me in aud[..i]
    {
      hit := hit || aud[i] == me;
    }
  }

  class Verifier {
    var keys: seq<Key>
    var audience: Option<Str>
    var leeway: i64
    var now: Option<i64>
    var maxDecodedLen: u64

    function Config(): Settings
      reads this
    {
      Settings(keys, audience, leeway, now, maxDecodedLen)
    }

    /** No reachable verifier has a leeway beyond the bound. */
    predicate Valid()
      reads this
    {
      0 <= leeway <= MAX_LEEWAY
    }

    constructor ()
      ensures Valid()
      ensures Config() == Settings([], None, 0, None, 65536)
    {
      keys, audience, leeway, now, maxDecodedLen := [], None, 0, None, DEFAULT_MAX_DECODED_LEN;
    }

    method AddKey(key: Key)
      requires Valid()
      modifies this
      ensures Valid()
      ensures Config() == old(Config()).(keys := old(keys) + [key])
    {
      keys := keys + [key];
    }

    method AddKeys(more: seq<Key>)
      requires Valid()
      modifies this
      ensures Valid()
      ensures Config() == old(Config()).(keys := old(keys) + more)
    {
      keys := keys + more;
    }

    method SetAudience(id: Str)
      requires Valid()
      modifies this
      ensures Valid()
      ensures Config() == old(Config()).(audience := Some(id))
    {
      audience := Some(id);
    }

    /** An over-large leeway is clamped. */
    method SetLeeway(secs: u64)
      requires Valid()
      modifies this
      ensures Valid()
      ensures Config() == old(Config()).(leeway := leeway)
      ensures leeway == if secs < 60 then secs else 60
    {
      leeway := if secs < MAX_LEEWAY then secs else MAX_LEEWAY;
    }

    method SetNow(now: i64)
      requires Valid()
      modifies this
      ensures Valid()
      ensures Config() == old(Config()).(now := Some(now))
    {
      this.now := Some(now);
    }

    method SetMaxDecodedLen(max: u64)
      requires Valid()
      modifies this
      ensures Valid()
      ensures Config() == old(Config()).(maxDecodedLen := max)
    {
      maxDecodedLen := max;
    }

    method MandatePlaintext(c: Cipher, token: string) returns (r: Result<seq<byte>, Reason>)
      ensures r == Authenticate(c, Config(), token)
    {
      hide ParseToken, DecodeText, Utf8Len, Open;
      var parsed := Parse(token);
      if parsed.Err? {
        return Err(Malformed);
      }
      if parsed.value.mandate.None? {
        return Err(EmptyMandate);
      }
      var half := parsed.value.mandate.value;
      var alg := Alg.FromCode(half.algCode);
      if alg.None? {
        return Err(Unsupported);
      }
      if Utf8Len(half.text) > EncodedCap(maxDecodedLen) {
        return Err(Malformed);
      }
      var sealed := DecodeText(half.text, parsed.value.encoding);
      if sealed.None? || |sealed.value| < MIN_HALF_BYTES || |sealed.value| > maxDecodedLen {
        return Err(Malformed);
      }
      for i := 0 to |keys|
        invariant TrialOpen(c, keys, sealed.value, alg.value) == TrialOpen(c, keys[i..], sealed.value, alg.value)
      {
        var plain := Open(c, sealed.value, keys[i], alg.value);
        if plain.Some? {
          return Ok(plain.value);
        }
        assert keys[i..][1..] == keys[i + 1..];
      }
      return Err(AuthFailed);
    }

    method VerifiedClauses(c: Cipher, clock: Option<u64>, token: string) returns (r: Result<MandateFields, Reason>)
      requires Valid()
      ensures r == Clauses(c, Config(), clock, token)
      ensures r.Ok? ==> r.value.exp.Some? && TimeIsBefore(Config(), clock, r.value.exp.value as int + 60)
    {
      hide Authenticate, FromMandatePlaintext;
      var plain := MandatePlaintext(c, token);
      if plain.Err? {
        return Err(plain.error);
      }
      var read := ReadMandatePlaintext(plain.value);
      if read.Err? {
        return Err(read.error);
      }
      var fields := read.value;
      if fields.tid.None? || !IsUuidV7(fields.tid.value) {
        return Err(BadTid);
      }
      if fields.exp.None? {
        return Err(MissingClause);
      }
      var time := if now.Some? then now.value else NowUnix(clock);
      if time >= SaturatingAdd(fields.exp.value, leeway) {
        return Err(Expired);
      }
      if fields.aud.Some? {
        if |fields.aud.value| == 0 || audience.None? {
          return Err(AudienceMismatch);
        }
        var hit := AudContains(fields.aud.value, audience.value);
        if !hit {
          return Err(AudienceMismatch);
        }
      }
      return Ok(fields);
    }

    /** Only the presence of tid and exp is asked for; the value policy is skipped. */
    method UncheckedClauses(c: Cipher, token: string) returns (r: Result<MandateFields, Reason>)
      ensures r == ClausesUnchecked(c, Config(), token)
    {
      hide Authenticate, FromMandatePlaintext;
      var plain := MandatePlaintext(c, token);
      if plain.Err? {
        return Err(plain.error);
      }
      var read := ReadMandatePlaintext(plain.value);
      if read.Err? {
        return Err(read.error);
      }
      var fields := read.value;
      if fields.tid.None? {
        return Err(BadTid);
      }
      if fields.exp.None? {
        return Err(MissingClause);
      }
      return Ok(fields);
    }
  }

  // ---- keyless reads --------------------------------------------------------------------------

  function ManifestPlaintext(c: Cipher, token: string): (r: Option<seq<byte>>)
  {
    match ParseToken(token)
    case Err(_) => None
    case Ok(p) =>
      if p.manifest.None? then None
      else
        var h := p.manifest.value;
        var alg := Alg.FromCode(h.algCode);
        if alg.None? then None
        else match DecodeHalf(h, p.encoding, DEFAULT_MAX_DECODED_LEN)
          case None => None
          case Some(sealed) => Open(c, sealed, MANIFEST_KEY, alg.value)
  }

  function Claims(c: Cipher, token: string): (r: Option<ManifestFields>)
  {
    match ManifestPlaintext(c, token)
    case None => None
    case Some(plain) => FromManifestPlaintext(plain)
  }

  method OpenManifest(c: Cipher, token: string) returns (r: Option<seq<byte>>)
    ensures r == ManifestPlaintext(c, token)
  {
    hide ParseToken, DecodeText, Utf8Len, Open;
    var parsed := Parse(token);
    if parsed.Err? || parsed.value.manifest.None? {
      return None;
    }
    var half := parsed.value.manifest.value;
    var alg := Alg.FromCode(half.algCode);
    if alg.None? || Utf8Len(half.text) > EncodedCap(DEFAULT_MAX_DECODED_LEN) {
      return None;
    }
    var sealed := DecodeText(half.text, parsed.value.encoding);
    if sealed.None? || |sealed.value| < MIN_HALF_BYTES || |sealed.value| > DEFAULT_MAX_DECODED_LEN {
      return None;
    }
    return Open(c, sealed.value, MANIFEST_KEY, alg.value);
  }

  method ReadManifestClaims(c: Cipher, token: string) returns (r: Option<ManifestFields>)
    ensures r == Claims(c, token)
  {
    hide ManifestPlaintext;
    var plain := OpenManifest(c, token);
    if plain.None? {
      return None;
    }
    r := ReadManifestPlaintext(plain.value);
  }
}
