/** The writer is uniquely decodable: the lenient reader takes back exactly what was written. */
module UniqueDecoding {
  import opened Basics
  import opened ByteStrings
  import opened Floats
  import opened Cbor

  ghost predicate FitsEntries(entries: seq<Entry>)
  {
    forall e :: e in entries ==> assert entries decreases to e; Fits(e.key) && Fits(e.val)
  }

  /** Every length in `v` fits a CBOR head, as it does for any value held in memory. */
  ghost predicate Fits(v: Value)
  {
    match v
    case Bytes(b) => |b| < TWO_64
    case Text(t) => |t| < TWO_64
    case Array(items) => |items| < TWO_64 && FitsItems(items)
    case Map(entries) => |entries| < TWO_64 && FitsEntries(entries)
    case Tag(_, inner) => Fits(inner)
    case _ => true
  }

  ghost predicate FitsItems(items: seq<Value>)
  {
    forall v :: v in items ==> Fits(v)
  }

  lemma {:induction false} ShortEntriesFit(entries: seq<Entry>)
    requires |EncodeEntries(entries)| < TWO_64
    ensures FitsEntries(entries)
  {
    if |entries| > 0 {
      assert entries decreases to entries[0];
      ShortEncodingFits(entries[0].key);
      ShortEncodingFits(entries[0].val);
      ShortEntriesFit(entries[1..]);
    }
  }

  /** A value whose encoding is shorter than 2^64 bytes fits. */
  lemma {:induction false} ShortEncodingFits(v: Value)
    requires |Encode(v)| < TWO_64
    ensures Fits(v)
  {
    match v
    case Array(items) => ShortItemsFit(items);
    case Map(entries) => ShortEntriesFit(entries);
    case Tag(_, inner) => ShortEncodingFits(inner);
    case _ =>
  }

  lemma {:induction false} ShortItemsFit(items: seq<Value>)
    requires |EncodeItems(items)| < TWO_64
    ensures FitsItems(items)
  {
    if |items| > 0 {
      ShortEncodingFits(items[0]);
      ShortItemsFit(items[1..]);
    }
  }

  lemma ReadShortestHead(major: nat, n: nat, rest: seq<byte>)
    requires major < 8 && n < TWO_64
    ensures ReadHead(EncodeHead(major, n) + rest) == Got(Head(major, ShortestInfo(n), n), rest)
  {
    var info := ShortestInfo(n);
    var w := ArgWidth(info);
    var p := EncodeHead(major, n) + rest;
    assert p[0] == major * 32 + info;
    assert p[0] / 32 == major && p[0] % 32 == info;
    assert p[1..1 + w] == BigEndian(n, w);
    assert p[1 + w..] == rest;
    if w > 0 {
      assert n < Pow256(w) by { Pow256Values(); }
      FromToBigEndian(n, w);
    }
  }

  lemma ReadArgument(b: byte, n: nat, rest: seq<byte>)
    requires ArgWidth(b % 32) > 0 && n < Pow256(ArgWidth(b % 32))
    ensures ReadHead([b] + BigEndian(n, ArgWidth(b % 32)) + rest) == Got(Head(b / 32, b % 32, n), rest)
  {
    var w := ArgWidth(b % 32);
    var p := [b] + BigEndian(n, w) + rest;
    assert p[1..1 + w] == BigEndian(n, w);
    assert p[1 + w..] == rest;
    FromToBigEndian(n, w);
  }

  lemma DecodeFloat(bits: u64, rest: seq<byte>)
    ensures Decode(EncodeFloat(bits) + rest) == Got(Float(bits), rest)
  {
    hide WidenHalf, WidenSingle, ReadHead, BigEndian, DecodeItems, DecodeEntries, ReadString;
    Pow256Values();
    if FitsHalf(bits) { ReadArgument(0xf9, ToHalf(bits), rest); }
    else if FitsSingle(bits) { ReadArgument(0xfa, ToSingle(bits), rest); }
    else { ReadArgument(0xfb, bits, rest); }
  }

  lemma DecodeShortestHead(major: nat, n: nat, tail: seq<byte>)
    requires major < 8 && n < TWO_64
    ensures ReadHead(EncodeHead(major, n) + tail) == Got(Head(major, ShortestInfo(n), n), tail)
    ensures ArgWidth(ShortestInfo(n)) > 0 ==> n < Pow256(ArgWidth(ShortestInfo(n)))
    ensures Decode(EncodeHead(major, n) + tail) == DecodeContent(Head(major, ShortestInfo(n), n), tail)
  {
    ReadShortestHead(major, n, tail);
  }

  lemma Reassociate(a: seq<byte>, b: seq<byte>, c: seq<byte>)
    ensures a + b + c == a + (b + c)
  {
  }

  lemma DecodeString(major: nat, s: seq<byte>, rest: seq<byte>)
    requires |s| < TWO_64 && (major == 2 || (major == 3 && IsUtf8(s)))
    ensures Decode(EncodeHead(major, |s|) + s + rest) == Got(if major == 2 then Bytes(s) else Text(s), rest)
  {
    DecodeShortestHead(major, |s|, s + rest);
    Reassociate(EncodeHead(major, |s|), s, rest);
    assert (s + rest)[..|s|] == s && (s + rest)[|s|..] == rest;
  }

  lemma DecodeInt(n: Integer, rest: seq<byte>)
    ensures Decode(Encode(Int(n)) + rest) == Got(Int(n), rest)
  {
    hide EncodeHead, ReadHead, DecodeItems, DecodeEntries;
    if n >= 0 { DecodeShortestHead(0, n, rest); } else { DecodeShortestHead(1, -1 - n, rest); }
  }

  lemma DecodeSimple(b: byte, rest: seq<byte>)
    requires 0xf4 <= b <= 0xf6
    ensures Decode([b] + rest) == Got(if b == 0xf6 then Null else Bool(b == 0xf5), rest)
  {
    hide DecodeItems, DecodeEntries;
    assert ([b] + rest)[1..] == rest;
  }

  lemma DecodeScalar(v: Value, rest: seq<byte>)
    requires Fits(v) && !v.Array? && !v.Map? && !v.Tag?
    ensures Decode(Encode(v) + rest) == Got(v, rest)
  {
    hide Decode, EncodeItems, EncodeEntries, EncodeFloat, EncodeHead;
    match v
    case Int(n) => DecodeInt(n, rest);
    case Bytes(b) => DecodeString(2, b, rest);
    case Text(t) => DecodeString(3, t, rest);
    case Bool(b) => DecodeSimple(if b then 0xf5 else 0xf4, rest);
    case Null => DecodeSimple(0xf6, rest);
    case Float(bits) => DecodeFloat(bits, rest);
    case _ =>
  }

  lemma DecodeArray(items: seq<Value>, rest: seq<byte>)
    requires |items| < TWO_64
    requires DecodeItems(Some(|items|), EncodeItems(items) + rest) == Got(items, rest)
    ensures Decode(Encode(Array(items)) + rest) == Got(Array(items), rest)
  {
    hide EncodeItems, DecodeItems, EncodeHead, ReadHead, DecodeEntries;
    DecodeShortestHead(4, |items|, EncodeItems(items) + rest);
    Reassociate(EncodeHead(4, |items|), EncodeItems(items), rest);
  }

  lemma DecodeMap(entries: seq<Entry>, rest: seq<byte>)
    requires |entries| < TWO_64
    requires DecodeEntries(Some(|entries|), EncodeEntries(entries) + rest) == Got(entries, rest)
    ensures Decode(Encode(Map(entries)) + rest) == Got(Map(entries), rest)
  {
    hide EncodeEntries, DecodeEntries, EncodeHead, ReadHead, DecodeItems;
    DecodeShortestHead(5, |entries|, EncodeEntries(entries) + rest);
    Reassociate(EncodeHead(5, |entries|), EncodeEntries(entries), rest);
  }

  lemma DecodeTag(t: TagNumber, inner: Value, rest: seq<byte>)
    requires Decode(Encode(inner) + rest) == Got(inner, rest)
    ensures Decode(Encode(Tag(t, inner)) + rest) == Got(Tag(t, inner), rest)
  {
    hide EncodeHead, ReadHead, DecodeItems, DecodeEntries;
    DecodeShortestHead(6, t, Encode(inner) + rest);
    Reassociate(EncodeHead(6, t), Encode(inner), rest);
  }

  lemma DecodeItemsStep(v: Value, vs: seq<Value>, p: seq<byte>, mid: seq<byte>, rest: seq<byte>)
    requires Decode(p) == Got(v, mid)
    requires DecodeItems(Some(|vs|), mid) == Got(vs, rest)
    ensures DecodeItems(Some(|vs| + 1), p) == Got([v] + vs, rest)
  {
  }

  lemma ItemsFront(items: seq<Value>, rest: seq<byte>)
    requires |items| > 0
    ensures EncodeItems(items) + rest == Encode(items[0]) + (EncodeItems(items[1..]) + rest)
  {
    hide Encode;
    Reassociate(Encode(items[0]), EncodeItems(items[1..]), rest);
  }

  lemma DecodeEntriesStep(e: Entry, es: seq<Entry>, p: seq<byte>, mid: seq<byte>, last: seq<byte>, rest: seq<byte>)
    requires Decode(p) == Got(e.key, mid) && Decode(mid) == Got(e.val, last)
    requires DecodeEntries(Some(|es|), last) == Got(es, rest)
    ensures DecodeEntries(Some(|es| + 1), p) == Got([e] + es, rest)
  {
  }

  lemma EntriesFront(entries: seq<Entry>, rest: seq<byte>)
    requires |entries| > 0
    ensures EncodeEntries(entries) + rest
         == Encode(entries[0].key) + (Encode(entries[0].val) + (EncodeEntries(entries[1..]) + rest))
  {
    hide Encode;
    Reassociate(Encode(entries[0].key) + Encode(entries[0].val), EncodeEntries(entries[1..]), rest);
    Reassociate(Encode(entries[0].key), Encode(entries[0].val), EncodeEntries(entries[1..]) + rest);
  }

  lemma {:induction false} DecodeEncodeEntries(entries: seq<Entry>, rest: seq<byte>)
    requires FitsEntries(entries)
    ensures DecodeEntries(Some(|entries|), EncodeEntries(entries) + rest) == Got(entries, rest)
    decreases entries, 1
  {
    hide Encode, Decode;
    if |entries| == 0 {
      assert EncodeEntries(entries) + rest == rest;
    } else {
      assert entries decreases to entries[0];
      var e := entries[0];
      var tail := EncodeEntries(entries[1..]) + rest;
      var mid, p := Encode(e.val) + tail, EncodeEntries(entries) + rest;
      EntriesFront(entries, rest);
      assert [e] + entries[1..] == entries;
      DecodeEncode(e.key, mid);
      DecodeEncode(e.val, tail);
      DecodeEncodeEntries(entries[1..], rest);
      DecodeEntriesStep(e, entries[1..], p, mid, tail, rest);
    }
  }

  /** Reading an encoding, whatever follows it, gives the value and what follows it. */
  lemma {:induction false} DecodeEncode(v: Value, rest: seq<byte>)
    requires Fits(v)
    ensures Decode(Encode(v) + rest) == Got(v, rest)
    decreases v, 0
  {
    hide Encode, Decode;
    match v
    case Array(items) =>
      DecodeEncodeItems(items, rest);
      DecodeArray(items, rest);
    case Map(entries) =>
      DecodeEncodeEntries(entries, rest);
      DecodeMap(entries, rest);
    case Tag(t, inner) =>
      DecodeEncode(inner, rest);
      DecodeTag(t, inner, rest);
    case _ => DecodeScalar(v, rest);
  }

  lemma {:induction false} DecodeEncodeItems(items: seq<Value>, rest: seq<byte>)
    requires FitsItems(items)
    ensures DecodeItems(Some(|items|), EncodeItems(items) + rest) == Got(items, rest)
    decreases items, 1
  {
    hide Encode, Decode;
    if |items| == 0 {
      assert EncodeItems(items) + rest == rest;
    } else {
      var tail, p := EncodeItems(items[1..]) + rest, EncodeItems(items) + rest;
      ItemsFront(items, rest);
      assert [items[0]] + items[1..] == items;
      DecodeEncode(items[0], tail);
      DecodeEncodeItems(items[1..], rest);
      DecodeItemsStep(items[0], items[1..], p, tail, rest);
    }
  }

  /** No encoding is a prefix of another value's, and different values have different encodings. */
  lemma PrefixFree(v: Value, w: Value, x: seq<byte>, y: seq<byte>)
    requires Fits(v) && Fits(w)
    requires Encode(v) + x == Encode(w) + y
    ensures v == w && x == y
  {
    DecodeEncode(v, x);
    DecodeEncode(w, y);
  }

  lemma EncodeInjective(v: Value, w: Value)
    requires Fits(v) && Fits(w)
    ensures Encode(v) == Encode(w) ==> v == w
  {
    hide Encode, Fits;
    if Encode(v) == Encode(w) {
      PrefixFree(v, w, [], []);
    }
  }
}
