/**
 * A half's plaintext: reserved fields at negative integer keys and application data at the other
 * keys of one canonical CBOR map.
 */
module HalfPlaintext {
  import opened Basics
  import opened ByteStrings
  import opened Cbor
  import opened Canonical
  import opened StrictDecoding
  import opened Types

  const KEY_TID: int := -1
  const KEY_EXP: int := -2
  const KEY_AUD: int := -3
  const KEY_SUB: int := -4
  const KEY_ISS: int := -5

  /** A mandate's clauses as read; `app` holds the entries of the application map. */
  datatype MandateFields = MandateFields(
    exp: Option<i64>, tid: Option<Uuid>, iss: Option<Str>, aud: Option<seq<Str>>, sub: Option<Str>, app: seq<Entry>)

  datatype ManifestFields = ManifestFields(iss: Str, exp: Option<i64>, app: seq<Entry>)

  const NO_FIELDS := MandateFields(None, None, None, None, None, [])

  datatype KeyKind = Reserved(n: int) | UnknownReserved | App | Invalid

  /** Read from the leading byte of the encoded key: the sign is the namespace. */
  predicate IsNegativeInt(k: Value)
  {
    k.Int? && Encode(k)[0] / 32 == 1
  }

  function Classify(k: Value): (kind: KeyKind)
  {
    if k.Int? && k.n in {KEY_TID, KEY_EXP, KEY_AUD, KEY_SUB, KEY_ISS} then Reserved(k.n)
    else if IsNegativeInt(k) then UnknownReserved
    else if IsIntOrText(k) then App
    else Invalid
  }

  // ---- field values to plaintext --------------------------------------------------------------

  function TidEntry(tid: Uuid): Entry { Entry(Int(KEY_TID), Bytes(tid)) }

  function ExpEntry(exp: i64): Entry { Entry(Int(KEY_EXP), Int(exp)) }

  function AudEntry(aud: seq<Str>): Entry
  {
    Entry(Int(KEY_AUD), Array(seq(|aud|, i requires 0 <= i < |aud| => Text(aud[i]))))
  }

  function SubEntry(sub: Str): Entry { Entry(Int(KEY_SUB), Text(sub)) }

  function IssEntry(iss: Str): Entry { Entry(Int(KEY_ISS), Text(iss)) }

  function IfPresent<T>(field: Option<T>, entry: T -> Entry): (r: seq<Entry>)
  {
    if field.Some? then [entry(field.value)] else []
  }

  /** The reserved entries in the order they are pushed. */
  function ReservedEntries(f: MandateFields): (r: seq<Entry>)
  {
    IfPresent(f.tid, TidEntry) + IfPresent(f.exp, ExpEntry) + IfPresent(f.aud, AudEntry)
    + IfPresent(f.sub, SubEntry) + IfPresent(f.iss, IssEntry)
  }

  function EntriesOf(f: MandateFields): (r: seq<Entry>)
  {
    f.app + ReservedEntries(f)
  }

  /** The application map's entries, kept out of the reserved namespace and free of NaN values. */
  function AppEntries(app: Value): (r: Result<seq<Entry>, MintError>)
  {
    if !app.Map? then Err(AppNotMap)
    else if exists e :: e in app.entries && IsNegativeInt(e.key) then Err(ReservedKey)
    else if exists e :: e in app.entries && ContainsNan(e.val) then Err(Nan)
    else Ok(app.entries)
  }

  function Assemble(entries: seq<Entry>): (plain: seq<byte>)
  {
    Encode(Canon(Map(entries)))
  }

  function ToMandatePlaintext(
    exp: i64, tid: Uuid, iss: Option<Str>, aud: Option<seq<Str>>, sub: Option<Str>, app: Value)
    : (r: Result<seq<byte>, MintError>)
  {
    match AppEntries(app)
    case Err(e) => Err(e)
    case Ok(entries) => Ok(Assemble(EntriesOf(MandateFields(Some(exp), Some(tid), iss, aud, sub, entries))))
  }

  function ToManifestPlaintext(iss: Str, app: Value): (r: Result<seq<byte>, MintError>)
  {
    match AppEntries(app)
    case Err(e) => Err(e)
    case Ok(entries) => Ok(Assemble(EntriesOf(NO_FIELDS.(iss := Some(iss), app := entries))))
  }

  /** Pushes the reserved entries onto the application's, then canonicalizes and encodes. */
  method BuildMandatePlaintext(
    exp: i64, tid: Uuid, iss: Option<Str>, aud: Option<seq<Str>>, sub: Option<Str>, app: Value)
    returns (r: Result<seq<byte>, MintError>)
    ensures r == ToMandatePlaintext(exp, tid, iss, aud, sub, app)
  {
    hide Canon, Encode, AppEntries, TidEntry, ExpEntry, AudEntry, SubEntry, IssEntry;
    var checked := AppEntries(app);
    if checked.Err? {
      return Err(checked.error);
    }
    var entries := checked.value;
    entries := entries + [TidEntry(tid)];
    entries := entries + [ExpEntry(exp)];
    if aud.Some? {
      entries := entries + [AudEntry(aud.value)];
    }
    if sub.Some? {
      entries := entries + [SubEntry(sub.value)];
    }
    if iss.Some? {
      entries := entries + [IssEntry(iss.value)];
    }
    assert entries == EntriesOf(MandateFields(Some(exp), Some(tid), iss, aud, sub, checked.value));
    var canon := Canonicalize(Map(entries));
    return Ok(Encode(canon));
  }

  method BuildManifestPlaintext(iss: Str, app: Value) returns (r: Result<seq<byte>, MintError>)
    ensures r == ToManifestPlaintext(iss, app)
  {
    hide Canon, Encode, ContainsNan;
    var checked := AppEntries(app);
    if checked.Err? {
      return Err(checked.error);
    }
    var entries := checked.value + [IssEntry(iss)];
    assert entries == EntriesOf(NO_FIELDS.(iss := Some(iss), app := checked.value));
    var canon := Canonicalize(Map(entries));
    return Ok(Encode(canon));
  }

  // ---- plaintext to field values --------------------------------------------------------------

  function ReadTid(v: Value): (r: Result<Uuid, Reason>)
  {
    if v.Bytes? && |v.bytes| == 16 then Ok(v.bytes) else Err(BadType)
  }

  function ReadInt(v: Value): (r: Result<i64, Reason>)
  {
    if v.Int? && -TWO_63 <= v.n < TWO_63 then Ok(v.n) else Err(BadType)
  }

  function ReadText(v: Value): (r: Result<Str, Reason>)
  {
    if v.Text? then Ok(v.text) else Err(BadType)
  }

  function ReadAud(v: Value): (r: Result<seq<Str>, Reason>)
  {
    if v.Array? && forall x :: x in v.items ==> x.Text? then
      Ok(seq<Str>(|v.items|, i requires 0 <= i < |v.items| => v.items[i].text))
    else Err(BadType)
  }

  /** One step of the reading loop. */
  function ReadEntry(f: MandateFields, e: Entry): (r: Result<MandateFields, Reason>)
  {
    match Classify(e.key)
    case Reserved(n) =>
      if n == KEY_TID then
        match ReadTid(e.val) { case Ok(tid) => Ok(f.(tid := Some(tid))) case Err(r) => Err(r) }
      else if n == KEY_EXP then
        match ReadInt(e.val) { case Ok(exp) => Ok(f.(exp := Some(exp))) case Err(r) => Err(r) }
      else if n == KEY_AUD then
        match ReadAud(e.val) { case Ok(aud) => Ok(f.(aud := Some(aud))) case Err(r) => Err(r) }
      else if n == KEY_SUB then
        match ReadText(e.val) { case Ok(sub) => Ok(f.(sub := Some(sub))) case Err(r) => Err(r) }
      else
        match ReadText(e.val) { case Ok(iss) => Ok(f.(iss := Some(iss))) case Err(r) => Err(r) }
    case UnknownReserved => Err(UnknownReservedKey)
    case App => Ok(f.(app := f.app + [e]))
    case Invalid => Err(NonCanonical)
  }

  function ReadEntries(es: seq<Entry>, f: MandateFields): (r: Result<MandateFields, Reason>)
  {
    if |es| == 0 then Ok(f)
    else match ReadEntry(f, es[0])
      case Err(r) => Err(r)
      case Ok(f') => ReadEntries(es[1..], f')
  }

  function FromMandatePlaintext(plain: seq<byte>): (r: Result<MandateFields, Reason>)
  {
    match StrictMap(plain)
    case Err(r) => Err(r)
    case Ok(es) => ReadEntries(es, NO_FIELDS)
  }

  /** The loop over the decoded entries, updating the fields one at a time. */
  method ReadMandatePlaintext(plain: seq<byte>) returns (r: Result<MandateFields, Reason>)
    ensures r == FromMandatePlaintext(plain)
  {
    hide Encode, IsNegativeInt;
    var decoded := StrictlyDecode(plain);
    if decoded.Err? {
      return Err(decoded.error);
    }
    var entries := decoded.value;
    var exp, tid, iss, aud, sub, app := None, None, None, None, None, [];
    for i := 0 to |entries|
      invariant ReadEntries(entries, NO_FIELDS)
             == ReadEntries(entries[i..], MandateFields(exp, tid, iss, aud, sub, app))
    {
      var e := entries[i];
      assert entries[i..][0] == e && entries[i..][1..] == entries[i + 1..];
      match Classify(e.key) {
        case Reserved(n) =>
          if n == KEY_TID {
            var v := ReadTid(e.val);
            if v.Err? { return Err(v.error); }
            tid := Some(v.value);
          } else if n == KEY_EXP {
            var v := ReadInt(e.val);
            if v.Err? { return Err(v.error); }
            exp := Some(v.value);
          } else if n == KEY_AUD {
            var v := ReadAud(e.val);
            if v.Err? { return Err(v.error); }
            aud := Some(v.value);
          } else if n == KEY_SUB {
            var v := ReadText(e.val);
            if v.Err? { return Err(v.error); }
            sub := Some(v.value);
          } else {
            var v := ReadText(e.val);
            if v.Err? { return Err(v.error); }
            iss := Some(v.value);
          }
        case UnknownReserved => return Err(UnknownReservedKey);
        case App => app := app + [e];
        case Invalid => return Err(NonCanonical);
      }
    }
    return Ok(MandateFields(exp, tid, iss, aud, sub, app));
  }

  /** One step of the manifest's reading loop; `None` is a manifest with nothing to show. */
  function ReadClaim(iss: Option<Str>, exp: Option<i64>, app: seq<Entry>, e: Entry)
    : (r: Option<(Option<Str>, Option<i64>, seq<Entry>)>)
  {
    match Classify(e.key)
    case Reserved(n) =>
      if n == KEY_ISS then (if e.val.Text? then Some((Some(e.val.text), exp, app)) else None)
      else if n == KEY_EXP then
        match ReadInt(e.val) { case Ok(v) => Some((iss, Some(v), app)) case Err(_) => None }
      else None
    case UnknownReserved => None
    case App => Some((iss, exp, app + [e]))
    case Invalid => None
  }

  function ReadClaims(es: seq<Entry>, iss: Option<Str>, exp: Option<i64>, app: seq<Entry>): (r: Option<ManifestFields>)
  {
    if |es| == 0 then (if iss.Some? then Some(ManifestFields(iss.value, exp, app)) else None)
    else match ReadClaim(iss, exp, app, es[0])
      case None => None
      case Some(next) => ReadClaims(es[1..], next.0, next.1, next.2)
  }

  function FromManifestPlaintext(plain: seq<byte>): (r: Option<ManifestFields>)
  {
    match StrictMap(plain)
    case Err(_) => None
    case Ok(es) => ReadClaims(es, None, None, [])
  }

  method ReadManifestPlaintext(plain: seq<byte>) returns (r: Option<ManifestFields>)
    ensures r == FromManifestPlaintext(plain)
  {
    hide Encode, IsNegativeInt;
    var decoded := StrictlyDecode(plain);
    if decoded.Err? {
      return None;
    }
    var entries := decoded.value;
    var iss, exp, app := None, None, [];
    for i := 0 to |entries|
      invariant ReadClaims(entries, None, None, []) == ReadClaims(entries[i..], iss, exp, app)
    {
      var e := entries[i];
      assert entries[i..][0] == e && entries[i..][1..] == entries[i + 1..];
      match Classify(e.key) {
        case Reserved(n) =>
          if n == KEY_ISS {
            if !e.val.Text? { return None; }
            iss := Some(e.val.text);
          } else if n == KEY_EXP {
            var v := ReadInt(e.val);
            if v.Err? { return None; }
            exp := Some(v.value);
          } else {
            return None;
          }
        case UnknownReserved => return None;
        case App => app := app + [e];
        case Invalid => return None;
      }
    }
    return if iss.Some? then Some(ManifestFields(iss.value, exp, app)) else None;
  }
}
