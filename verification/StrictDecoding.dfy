/**
 * Strict decoding of a half's plaintext: decode leniently, check, re-encode canonically and
 * compare.
 */
module StrictDecoding {
  import opened Basics
  import opened ByteStrings
  import opened Cbor
  import opened UniqueDecoding
  import opened KeySort
  import opened Canonical
  import opened Types

  /** The checks on a leniently decoded item, the last of which compares with the input. */
  function CheckMap(decoded: Step<Value>, plain: seq<byte>): (r: Result<seq<Entry>, Reason>)
  {
    match decoded
    case Fail => Err(Malformed)
    case Got(value, _) =>
      if !value.Map? then Err(Malformed)
      else if exists e :: e in value.entries && EntryContainsNan(e) then Err(NonCanonical)
      else if exists e :: e in value.entries && EntryInvalid(e) then Err(NonCanonical)
      else if !DistinctKeys(value.entries) then Err(NonCanonical)
      else if Encode(Canon(value)) != plain then Err(NonCanonical)
      else Ok(value.entries)
  }

  function StrictMap(plain: seq<byte>): (r: Result<seq<Entry>, Reason>)
  {
    CheckMap(Decode(plain), plain)
  }

  /** The same, with the set of encoded keys seen so far and canonicalization in place. */
  method StrictlyDecode(plain: seq<byte>) returns (r: Result<seq<Entry>, Reason>)
    ensures r == StrictMap(plain)
  {
    hide Encode, Decode, Canon, KeyBytes, EntryContainsNan, EntryInvalid;
    var decoded := Decode(plain);
    if decoded.Fail? || !decoded.value.Map? {
      return Err(Malformed);
    }
    var entries := decoded.value.entries;
    if exists e :: e in entries && EntryContainsNan(e) {
      return Err(NonCanonical);
    }
    if exists e :: e in entries && EntryInvalid(e) {
      return Err(NonCanonical);
    }
    var seen: set<seq<byte>> := {};
    for i := 0 to |entries|
      invariant DistinctKeys(entries[..i])
      invariant forall k :: k in seen <==> exists j :: 0 <= j < i && KeyBytes(entries[j]) == k
    {
      if KeyBytes(entries[i]) in seen {
        return Err(NonCanonical);
      }
      seen := seen + {KeyBytes(entries[i])};
    }
    assert entries[..|entries|] == entries;
    var canon := Canonicalize(Map(entries));
    if Encode(canon) != plain {
      return Err(NonCanonical);
    }
    return Ok(entries);
  }

  /** What a canonical half may hold at any depth. */
  ghost predicate Clean(v: Value)
  {
    !ContainsNan(v) && !HasInvalidMapKey(v) && SortedDeep(v)
  }

  ghost predicate StrictlySorted(es: seq<Entry>)
  {
    forall i :: 0 < i < |es| ==> LexLt(KeyBytes(es[i - 1]), KeyBytes(es[i]))
  }

  lemma {:induction false} StrictPairs(es: seq<Entry>, i: nat, j: nat)
    requires StrictlySorted(es) && i < j < |es|
    ensures LexLt(KeyBytes(es[i]), KeyBytes(es[j]))
    decreases j - i
  {
    hide KeyBytes, LexLt;
    if i < j - 1 {
      StrictPairs(es, i, j - 1);
      assert LexLt(KeyBytes(es[j - 1]), KeyBytes(es[j]));
      LexLtTrans(KeyBytes(es[i]), KeyBytes(es[j - 1]), KeyBytes(es[j]));
    }
  }

  /** Strict order is order without repetition. */
  lemma StrictlySortedIff(es: seq<Entry>)
    ensures StrictlySorted(es) <==> Sorted(es) && DistinctKeys(es)
  {
    hide KeyBytes, LexLe;
    if StrictlySorted(es) {
      forall i, j | 0 <= i < j < |es|
        ensures KeyBytes(es[i]) != KeyBytes(es[j])
      {
        StrictPairs(es, i, j);
      }
    }
  }

  /** Accepted entries are exactly what the plaintext encodes, already in canonical order. */
  lemma StrictMapResult(plain: seq<byte>)
    requires |plain| < TWO_64 && StrictMap(plain).Ok?
    ensures var es := StrictMap(plain).value;
            Encode(Map(es)) == plain && Clean(Map(es)) && DistinctKeys(es) && Fits(Map(es))
  {
    hide Sorted, Encode, Decode, DistinctKeys, EntryContainsNan, EntryInvalid, Canon, Fits;
    var v := Decode(plain).value;
    ShortEncodingFits(Canon(v));
    DecodeEncode(Canon(v), []);
    assert Encode(Canon(v)) + [] == plain;
    CanonSortedDeep(v);
  }

  /** Canonical bytes of a clean value with distinct top-level keys are accepted. */
  lemma StrictMapAccepts(es: seq<Entry>)
    requires Clean(Map(es)) && DistinctKeys(es) && Fits(Map(es))
    ensures StrictMap(Encode(Map(es))) == Ok(es)
  {
    hide Sorted, Encode, Decode, DistinctKeys, EntryContainsNan, EntryInvalid, Canon, Fits;
    DecodeEncode(Map(es), []);
    assert Encode(Map(es)) + [] == Encode(Map(es));
    CanonFixed(Map(es));
  }

  /** A reader that takes back what the writer writes, whatever else it tolerates. */
  ghost predicate ReadsWritten(read: seq<byte> -> Step<Value>)
  {
    forall v, rest :: Fits(v) ==> read(Encode(v) + rest) == Got(v, rest)
  }

  lemma CheckedIsWritten(read: seq<byte> -> Step<Value>, plain: seq<byte>)
    requires ReadsWritten(read) && |plain| < TWO_64 && CheckMap(read(plain), plain).Ok?
    ensures var es := CheckMap(read(plain), plain).value;
            read(plain) == Got(Map(es), []) && Encode(Map(es)) == plain && Fits(Map(es))
  {
    hide Encode, DistinctKeys, EntryContainsNan, EntryInvalid, Canon, Fits;
    var v := read(plain).value;
    ShortEncodingFits(Canon(v));
    assert Encode(Canon(v)) + [] == plain;
  }

  /**
   * How lenient the reader is does not matter: any reader that takes back what is written accepts
   * the same plaintexts with the same entries.
   */
  lemma AnyReaderAcceptsAlike(read: seq<byte> -> Step<Value>, plain: seq<byte>, es: seq<Entry>)
    requires ReadsWritten(read) && |plain| < TWO_64
    ensures CheckMap(read(plain), plain) == Ok(es) <==> StrictMap(plain) == Ok(es)
  {
    hide Encode, CheckMap, Fits, Decode;
    assert ReadsWritten(Decode) by {
      forall v, rest | Fits(v)
        ensures Decode(Encode(v) + rest) == Got(v, rest)
      {
        DecodeEncode(v, rest);
      }
    }
    if CheckMap(read(plain), plain) == Ok(es) {
      CheckedIsWritten(read, plain);
      assert Decode(Encode(Map(es)) + []) == Got(Map(es), []);
      assert Encode(Map(es)) + [] == plain;
    }
    if StrictMap(plain) == Ok(es) {
      CheckedIsWritten(Decode, plain);
      assert read(Encode(Map(es)) + []) == Got(Map(es), []);
      assert Encode(Map(es)) + [] == plain;
    }
  }
}
