/**
 * How lenient the reader is: every way RFC 8949 has of writing a data item is taken, and strict
 * decoding tells them apart afterwards.
 */
module LenientReading {
  import opened Basics
  import opened ByteStrings
  import opened Floats
  import opened Cbor
  import opened UniqueDecoding
  import opened KeySort
  import opened StrictDecoding
  import opened Types

  // ---- spellings ------------------------------------------------------------------------------

  datatype Chunk = Chunk(content: seq<byte>, info: nat)

  datatype TextChunk = TextChunk(text: Str, info: nat)

  /** A data item as it is written: `info` is the additional information of its head. */
  datatype Spelling =
    | AnInt(n: Integer, info: nat)
    | SomeBytes(bytes: seq<byte>, info: nat)
    | SomeText(text: Str, info: nat)
    | BytesInChunks(chunks: seq<Chunk>)
    | TextInChunks(texts: seq<TextChunk>)
    | AnArray(items: seq<Spelling>, info: nat)
    | AnOpenArray(items: seq<Spelling>)
    | AMap(entries: seq<SpelledEntry>, info: nat)
    | AnOpenMap(entries: seq<SpelledEntry>)
    | ATag(tag: TagNumber, inner: Spelling, info: nat)
    | ASimple(code: nat, info: nat)
    | AHalf(half: nat)
    | ASingle(single: nat)
    | ADouble(bits: u64)

  datatype SpelledEntry = SpelledEntry(key: Spelling, val: Spelling)

  /** The additional information can carry this argument: the argument itself, or a width it fits. */
  predicate Carries(info: nat, arg: nat): (r: bool)
    ensures r ==> info < 28
  {
    (info < 24 && info == arg) || (ArgWidth(info) > 0 && arg < Pow256(ArgWidth(info)))
  }

  ghost predicate PossibleEntry(e: SpelledEntry)
  {
    Possible(e.key) && Possible(e.val)
  }

  ghost predicate Possible(s: Spelling)
  {
    match s
    case AnInt(n, info) => Carries(info, if n >= 0 then n else -1 - n)
    case SomeBytes(b, info) => Carries(info, |b|)
    case SomeText(t, info) => Carries(info, |t|)
    case BytesInChunks(chunks) => forall c :: c in chunks ==> Carries(c.info, |c.content|)
    case TextInChunks(texts) => forall c :: c in texts ==> Carries(c.info, |c.text|)
    case AnArray(items, info) => Carries(info, |items|) && forall x :: x in items ==> Possible(x)
    case AnOpenArray(items) => forall x :: x in items ==> Possible(x)
    case AMap(entries, info) => Carries(info, |entries|) && forall e :: e in entries ==> PossibleEntry(e)
    case AnOpenMap(entries) => forall e :: e in entries ==> PossibleEntry(e)
    case ATag(t, inner, info) => Carries(info, t) && Possible(inner)
    case ASimple(code, info) => 20 <= code <= 23 && (info == code || info == 24)
    case AHalf(half) => half < 0x1_0000
    case ASingle(single) => single < 0x1_0000_0000
    case ADouble(_) => true
  }

  // ---- what is written ------------------------------------------------------------------------

  function AnyHead(major: nat, info: nat, arg: nat): (r: seq<byte>)
    requires major < 8 && info < 32
    ensures |r| > 0 && r[0] == major * 32 + info
  {
    [major * 32 + info] + BigEndian(arg, ArgWidth(info))
  }

  function ChunksBytes(chunks: seq<Chunk>): (r: seq<byte>)
    requires forall c :: c in chunks ==> Carries(c.info, |c.content|)
  {
    if |chunks| == 0 then [BREAK]
    else
      assert Carries(chunks[0].info, |chunks[0].content|);
      AnyHead(2, chunks[0].info, |chunks[0].content|) + chunks[0].content + ChunksBytes(chunks[1..])
  }

  function TextsBytes(texts: seq<TextChunk>): (r: seq<byte>)
    requires forall c :: c in texts ==> Carries(c.info, |c.text|)
  {
    if |texts| == 0 then [BREAK]
    else
      assert Carries(texts[0].info, |texts[0].text|);
      AnyHead(3, texts[0].info, |texts[0].text|) + texts[0].text + TextsBytes(texts[1..])
  }

  ghost function EntriesBytes(entries: seq<SpelledEntry>): (r: seq<byte>)
    requires forall e :: e in entries ==> PossibleEntry(e)
  {
    if |entries| == 0 then []
    else
      assert entries decreases to entries[0];
      assert PossibleEntry(entries[0]);
      BytesOf(entries[0].key) + BytesOf(entries[0].val) + EntriesBytes(entries[1..])
  }

  ghost function BytesOf(s: Spelling): (r: seq<byte>)
    requires Possible(s)
    ensures |r| > 0 && r[0] != BREAK
  {
    match s
    case AnInt(n, info) => if n >= 0 then AnyHead(0, info, n) else AnyHead(1, info, -1 - n)
    case SomeBytes(b, info) => AnyHead(2, info, |b|) + b
    case SomeText(t, info) => AnyHead(3, info, |t|) + t
    case BytesInChunks(chunks) => [0x5f] + ChunksBytes(chunks)
    case TextInChunks(texts) => [0x7f] + TextsBytes(texts)
    case AnArray(items, info) => AnyHead(4, info, |items|) + ItemsBytes(items)
    case AnOpenArray(items) => [0x9f] + (ItemsBytes(items) + [BREAK])
    case AMap(entries, info) => AnyHead(5, info, |entries|) + EntriesBytes(entries)
    case AnOpenMap(entries) => [0xbf] + (EntriesBytes(entries) + [BREAK])
    case ATag(t, inner, info) => AnyHead(6, info, t) + BytesOf(inner)
    case ASimple(code, info) => if info == 24 then [0xf8, code] else [0xe0 + code]
    case AHalf(half) => [0xf9] + BigEndian(half, 2)
    case ASingle(single) => [0xfa] + BigEndian(single, 4)
    case ADouble(bits) => [0xfb] + BigEndian(bits, 8)
  }

  ghost function ItemsBytes(items: seq<Spelling>): (r: seq<byte>)
    requires forall x :: x in items ==> Possible(x)
  {
    if |items| == 0 then [] else BytesOf(items[0]) + ItemsBytes(items[1..])
  }

  // ---- what is meant --------------------------------------------------------------------------

  function JoinedBytes(chunks: seq<Chunk>): (b: seq<byte>)
  {
    if |chunks| == 0 then [] else chunks[0].content + JoinedBytes(chunks[1..])
  }

  function JoinedText(texts: seq<TextChunk>): (t: Str)
  {
    if |texts| == 0 then []
    else
      Utf8Concat(texts[0].text, JoinedText(texts[1..]));
      texts[0].text + JoinedText(texts[1..])
  }

  ghost function EntriesMeant(entries: seq<SpelledEntry>): (es: seq<Entry>)
    requires forall e :: e in entries ==> PossibleEntry(e)
    ensures |es| == |entries|
  {
    if |entries| == 0 then []
    else
      assert entries decreases to entries[0];
      assert PossibleEntry(entries[0]);
      [Entry(Meant(entries[0].key), Meant(entries[0].val))] + EntriesMeant(entries[1..])
  }

  ghost function Meant(s: Spelling): (v: Value)
    requires Possible(s)
  {
    match s
    case AnInt(n, _) => Int(n)
    case SomeBytes(b, _) => Bytes(b)
    case SomeText(t, _) => Text(t)
    case BytesInChunks(chunks) => Bytes(JoinedBytes(chunks))
    case TextInChunks(texts) => Text(JoinedText(texts))
    case AnArray(items, _) => Array(ItemsMeant(items))
    case AnOpenArray(items) => Array(ItemsMeant(items))
    case AMap(entries, _) => Map(EntriesMeant(entries))
    case AnOpenMap(entries) => Map(EntriesMeant(entries))
    case ATag(t, inner, _) => Tag(t, Meant(inner))
    case ASimple(code, _) => if code == 20 then Bool(false) else if code == 21 then Bool(true) else Null
    case AHalf(half) => Float(WidenHalf(half))
    case ASingle(single) => Float(WidenSingle(single))
    case ADouble(bits) => Float(bits)
  }

  ghost function ItemsMeant(items: seq<Spelling>): (vs: seq<Value>)
    requires forall x :: x in items ==> Possible(x)
    ensures |vs| == |items|
  {
    if |items| == 0 then [] else [Meant(items[0])] + ItemsMeant(items[1..])
  }

  // ---- every spelling is read as what is meant -------------------------------------------------

  lemma CarriedArgument(info: nat, arg: nat)
    requires Carries(info, arg)
    ensures info < 28 && arg < TWO_64
  {
    Pow256Values();
  }

  lemma ReadAnyHead(major: nat, info: nat, arg: nat, rest: seq<byte>)
    requires major < 8 && Carries(info, arg)
    ensures info < 28 && ReadHead(AnyHead(major, info, arg) + rest) == Got(Head(major, info, arg), rest)
  {
    hide BigEndian, FromBigEndian, Pow256;
    CarriedArgument(info, arg);
    if info < 24 {
      assert AnyHead(major, info, arg) == [major * 32 + info];
      assert ([major * 32 + info] + rest)[1..] == rest;
    } else {
      ReadArgument(major * 32 + info, arg, rest);
    }
  }

  lemma {:induction false} ChunksRead(chunks: seq<Chunk>, rest: seq<byte>)
    requires forall c :: c in chunks ==> Carries(c.info, |c.content|)
    ensures ReadChunks(2, ChunksBytes(chunks) + rest) == Got(JoinedBytes(chunks), rest)
  {
    hide ReadHead, AnyHead, Carries;
    if |chunks| > 0 {
      var c, more := chunks[0], ChunksBytes(chunks[1..]) + rest;
      var head := AnyHead(2, c.info, |c.content|);
      ReadAnyHead(2, c.info, |c.content|, c.content + more);
      ChunksRead(chunks[1..], rest);
      Reassociate(head + c.content, ChunksBytes(chunks[1..]), rest);
      Reassociate(head, c.content, more);
      assert (c.content + more)[..|c.content|] == c.content && (c.content + more)[|c.content|..] == more;
      CarriedArgument(c.info, |c.content|);
    }
  }

  lemma {:induction false} TextsRead(texts: seq<TextChunk>, rest: seq<byte>)
    requires forall c :: c in texts ==> Carries(c.info, |c.text|)
    ensures ReadChunks(3, TextsBytes(texts) + rest) == Got(JoinedText(texts), rest)
  {
    hide ReadHead, AnyHead, Carries, IsUtf8;
    if |texts| > 0 {
      var c, more := texts[0], TextsBytes(texts[1..]) + rest;
      var head := AnyHead(3, c.info, |c.text|);
      ReadAnyHead(3, c.info, |c.text|, c.text + more);
      TextsRead(texts[1..], rest);
      Reassociate(head + c.text, TextsBytes(texts[1..]), rest);
      Reassociate(head, c.text, more);
      assert (c.text + more)[..|c.text|] == c.text && (c.text + more)[|c.text|..] == more;
      CarriedArgument(c.info, |c.text|);
    }
  }

  lemma DecodeAnyHead(major: nat, info: nat, arg: nat, rest: seq<byte>)
    requires major < 8 && Carries(info, arg)
    ensures arg < TWO_64 && (ArgWidth(info) > 0 ==> arg < Pow256(ArgWidth(info)))
    ensures Decode(AnyHead(major, info, arg) + rest) == DecodeContent(Head(major, info, arg), rest)
  {
    CarriedArgument(info, arg);
    ReadAnyHead(major, info, arg, rest);
  }

  lemma DecodeOpenHead(major: nat, rest: seq<byte>)
    requires 2 <= major <= 5
    ensures Decode([major * 32 + 31] + rest) == DecodeContent(Head(major, 31, 31), rest)
  {
    hide DecodeContent, FromBigEndian;
    assert ([major * 32 + 31] + rest)[1..] == rest;
  }

  lemma StringRead(text: bool, s: seq<byte>, info: nat, rest: seq<byte>)
    requires Carries(info, |s|) && (text ==> IsUtf8(s))
    ensures Decode(AnyHead(if text then 3 else 2, info, |s|) + s + rest)
         == Got(if text then Text(s) else Bytes(s), rest)
  {
    hide AnyHead, Decode, DecodeItems, DecodeEntries, Carries;
    var major := if text then 3 else 2;
    DecodeAnyHead(major, info, |s|, s + rest);
    Reassociate(AnyHead(major, info, |s|), s, rest);
    assert (s + rest)[..|s|] == s && (s + rest)[|s|..] == rest;
  }

  lemma OpenStringRead(chunks: seq<Chunk>, texts: seq<TextChunk>, rest: seq<byte>)
    ensures (forall c :: c in chunks ==> Carries(c.info, |c.content|))
        ==> Decode([0x5f] + ChunksBytes(chunks) + rest) == Got(Bytes(JoinedBytes(chunks)), rest)
    ensures (forall c :: c in texts ==> Carries(c.info, |c.text|))
        ==> Decode([0x7f] + TextsBytes(texts) + rest) == Got(Text(JoinedText(texts)), rest)
  {
    hide Decode, DecodeItems, DecodeEntries, Carries, ReadChunks, ChunksBytes, TextsBytes;
    if forall c :: c in chunks ==> Carries(c.info, |c.content|) {
      DecodeOpenHead(2, ChunksBytes(chunks) + rest);
      Reassociate([0x5f], ChunksBytes(chunks), rest);
      ChunksRead(chunks, rest);
    }
    if forall c :: c in texts ==> Carries(c.info, |c.text|) {
      DecodeOpenHead(3, TextsBytes(texts) + rest);
      Reassociate([0x7f], TextsBytes(texts), rest);
      TextsRead(texts, rest);
    }
  }

  lemma OneByteArgument(b: byte, n: byte, rest: seq<byte>)
    requires b % 32 == 24
    ensures ReadHead([b, n] + rest) == Got(Head(b / 32, 24, n), rest)
  {
    assert ([b, n] + rest)[1..2] == [n] && ([b, n] + rest)[2..] == rest;
    assert [n][..0] == [];
  }

  lemma SimpleRead(code: nat, info: nat, rest: seq<byte>)
    requires 20 <= code <= 23 && (info == code || info == 24)
    ensures Decode((if info == 24 then [0xf8, code] else [0xe0 + code]) + rest)
         == Got(if code == 20 then Bool(false) else if code == 21 then Bool(true) else Null, rest)
  {
    hide DecodeItems, DecodeEntries, BigEndian;
    assert [0xf8] + [code] == [0xf8, code];
    if info == 24 {
      OneByteArgument(0xf8, code, rest);
    } else {
      assert ([0xe0 + code] + rest)[1..] == rest;
    }
  }

  lemma FloatRead(b: byte, n: nat, rest: seq<byte>)
    requires 0xf9 <= b <= 0xfb && n < Pow256(ArgWidth(b % 32))
    ensures n < (if b == 0xf9 then 0x1_0000 else if b == 0xfa then 0x1_0000_0000 else TWO_64)
    ensures Decode([b] + BigEndian(n, ArgWidth(b % 32)) + rest)
         == Got(Float(if b == 0xf9 then WidenHalf(n) else if b == 0xfa then WidenSingle(n) else n), rest)
  {
    hide WidenHalf, WidenSingle, ReadHead, BigEndian, DecodeItems, DecodeEntries, ReadString;
    Pow256Values();
    ReadArgument(b, n, rest);
  }

  /** What follows a container's items: nothing, or the break. */
  function Closing(open: bool, rest: seq<byte>): (r: seq<byte>)
  {
    if open then [BREAK] + rest else rest
  }

  lemma OpenItemsStep(v: Value, vs: seq<Value>, p: seq<byte>, mid: seq<byte>, rest: seq<byte>)
    requires Decode(p) == Got(v, mid) && |p| > 0 && p[0] != BREAK
    requires DecodeItems(None, mid) == Got(vs, rest)
    ensures DecodeItems(None, p) == Got([v] + vs, rest)
  {
  }

  lemma OpenEntriesStep(e: Entry, es: seq<Entry>, p: seq<byte>, mid: seq<byte>, last: seq<byte>, rest: seq<byte>)
    requires Decode(p) == Got(e.key, mid) && Decode(mid) == Got(e.val, last) && |p| > 0 && p[0] != BREAK
    requires DecodeEntries(None, last) == Got(es, rest)
    ensures DecodeEntries(None, p) == Got([e] + es, rest)
  {
  }

  lemma NoItemsRead(open: bool, rest: seq<byte>)
    ensures DecodeItems(if open then None else Some(0), Closing(open, rest)) == Got([], rest)
    ensures DecodeEntries(if open then None else Some(0), Closing(open, rest)) == Got([], rest)
  {
  }

  lemma {:induction false} EntriesRead(entries: seq<SpelledEntry>, open: bool, rest: seq<byte>)
    requires forall e :: e in entries ==> PossibleEntry(e)
    ensures DecodeEntries(if open then None else Some(|entries|), EntriesBytes(entries) + Closing(open, rest))
         == Got(EntriesMeant(entries), rest)
    decreases entries, 1
  {
    hide BytesOf, Meant, Possible, Decode, DecodeEntries, Closing;
    if |entries| == 0 {
      NoItemsRead(open, rest);
      assert [] + Closing(open, rest) == Closing(open, rest);
    } else {
      assert entries decreases to entries[0];
      var e, more := entries[0], EntriesBytes(entries[1..]) + Closing(open, rest);
      assert PossibleEntry(e);
      var k, v := BytesOf(e.key), BytesOf(e.val);
      var p := EntriesBytes(entries) + Closing(open, rest);
      Reassociate(k + v, EntriesBytes(entries[1..]), Closing(open, rest));
      Reassociate(k, v, more);
      SpellingRead(e.key, v + more);
      SpellingRead(e.val, more);
      EntriesRead(entries[1..], open, rest);
      var f := Entry(Meant(e.key), Meant(e.val));
      if open {
        OpenEntriesStep(f, EntriesMeant(entries[1..]), p, v + more, more, rest);
      } else {
        DecodeEntriesStep(f, EntriesMeant(entries[1..]), p, v + more, more, rest);
      }
    }
  }

  lemma ContainerRead(s: Spelling, rest: seq<byte>)
    requires Possible(s)
    requires s.AnArray? || s.AnOpenArray? || s.AMap? || s.AnOpenMap?
    requires s.AnArray?
         ==> DecodeItems(Some(|s.items|), ItemsBytes(s.items) + Closing(false, rest)) == Got(ItemsMeant(s.items), rest)
    requires s.AnOpenArray?
         ==> DecodeItems(None, ItemsBytes(s.items) + Closing(true, rest)) == Got(ItemsMeant(s.items), rest)
    requires s.AMap?
         ==> DecodeEntries(Some(|s.entries|), EntriesBytes(s.entries) + Closing(false, rest))
             == Got(EntriesMeant(s.entries), rest)
    requires s.AnOpenMap?
         ==> DecodeEntries(None, EntriesBytes(s.entries) + Closing(true, rest)) == Got(EntriesMeant(s.entries), rest)
    ensures Decode(BytesOf(s) + rest) == Got(Meant(s), rest)
  {
    hide AnyHead, Decode, DecodeItems, DecodeEntries, ItemsBytes, EntriesBytes, ItemsMeant, EntriesMeant, Carries;
    match s
    case AnArray(items, info) =>
      DecodeAnyHead(4, info, |items|, ItemsBytes(items) + rest);
      Reassociate(AnyHead(4, info, |items|), ItemsBytes(items), rest);
    case AnOpenArray(items) =>
      DecodeOpenHead(4, ItemsBytes(items) + ([BREAK] + rest));
      Reassociate([0x9f], ItemsBytes(items) + [BREAK], rest);
      Reassociate(ItemsBytes(items), [BREAK], rest);
    case AMap(entries, info) =>
      DecodeAnyHead(5, info, |entries|, EntriesBytes(entries) + rest);
      Reassociate(AnyHead(5, info, |entries|), EntriesBytes(entries), rest);
    case AnOpenMap(entries) =>
      DecodeOpenHead(5, EntriesBytes(entries) + ([BREAK] + rest));
      Reassociate([0xbf], EntriesBytes(entries) + [BREAK], rest);
      Reassociate(EntriesBytes(entries), [BREAK], rest);
  }

  lemma IntRead(n: Integer, info: nat, rest: seq<byte>)
    requires Carries(info, if n >= 0 then n else -1 - n)
    ensures Decode((if n >= 0 then AnyHead(0, info, n) else AnyHead(1, info, -1 - n)) + rest) == Got(Int(n), rest)
  {
    hide AnyHead, Decode, DecodeItems, DecodeEntries, Carries;
    if n >= 0 { DecodeAnyHead(0, info, n, rest); } else { DecodeAnyHead(1, info, -1 - n, rest); }
  }

  lemma PlainRead(s: Spelling, rest: seq<byte>)
    requires Possible(s)
    requires !s.AnArray? && !s.AnOpenArray? && !s.AMap? && !s.AnOpenMap? && !s.ATag?
    ensures Decode(BytesOf(s) + rest) == Got(Meant(s), rest)
  {
    hide AnyHead, Decode, Carries, ChunksBytes, TextsBytes, JoinedBytes, JoinedText, WidenHalf, WidenSingle;
    match s
    case AnInt(n, info) => IntRead(n, info, rest);
    case SomeBytes(b, info) => StringRead(false, b, info, rest);
    case SomeText(t, info) => StringRead(true, t, info, rest);
    case BytesInChunks(chunks) => OpenStringRead(chunks, [], rest);
    case TextInChunks(texts) => OpenStringRead([], texts, rest);
    case ASimple(code, info) => SimpleRead(code, info, rest);
    case AHalf(half) => Pow256Values(); FloatRead(0xf9, half, rest);
    case ASingle(single) => Pow256Values(); FloatRead(0xfa, single, rest);
    case ADouble(bits) => Pow256Values(); FloatRead(0xfb, bits, rest);
    case _ =>
  }

  lemma TagRead(t: TagNumber, inner: Spelling, info: nat, rest: seq<byte>)
    requires Carries(info, t) && Possible(inner)
    requires Decode(BytesOf(inner) + rest) == Got(Meant(inner), rest)
    ensures Decode(AnyHead(6, info, t) + BytesOf(inner) + rest) == Got(Tag(t, Meant(inner)), rest)
  {
    hide AnyHead, BytesOf, Meant, ReadHead, DecodeItems, DecodeEntries, Carries;
    DecodeAnyHead(6, info, t, BytesOf(inner) + rest);
    Reassociate(AnyHead(6, info, t), BytesOf(inner), rest);
  }

  /**
   * The reader takes every spelling of a value, whatever follows it: long heads, strings in chunks,
   * open containers, any float width.
   */
  lemma {:induction false} SpellingRead(s: Spelling, rest: seq<byte>)
    requires Possible(s)
    ensures Decode(BytesOf(s) + rest) == Got(Meant(s), rest)
    decreases s, 0
  {
    hide Decode, DecodeItems, DecodeEntries, AnyHead, ItemsBytes, EntriesBytes, ItemsMeant, EntriesMeant, Carries;
    match s
    case AnArray(items, _) => ItemsRead(items, false, rest); ContainerRead(s, rest);
    case AnOpenArray(items) => ItemsRead(items, true, rest); ContainerRead(s, rest);
    case AMap(entries, _) => EntriesRead(entries, false, rest); ContainerRead(s, rest);
    case AnOpenMap(entries) => EntriesRead(entries, true, rest); ContainerRead(s, rest);
    case ATag(t, inner, info) => SpellingRead(inner, rest); TagRead(t, inner, info, rest);
    case _ => PlainRead(s, rest);
  }

  lemma {:induction false} ItemsRead(items: seq<Spelling>, open: bool, rest: seq<byte>)
    requires forall x :: x in items ==> Possible(x)
    ensures DecodeItems(if open then None else Some(|items|), ItemsBytes(items) + Closing(open, rest))
         == Got(ItemsMeant(items), rest)
    decreases items, 1
  {
    hide BytesOf, Meant, Possible, Decode, DecodeItems, Closing;
    if |items| == 0 {
      NoItemsRead(open, rest);
      assert [] + Closing(open, rest) == Closing(open, rest);
    } else {
      var x, more := items[0], ItemsBytes(items[1..]) + Closing(open, rest);
      var p := ItemsBytes(items) + Closing(open, rest);
      Reassociate(BytesOf(x), ItemsBytes(items[1..]), Closing(open, rest));
      SpellingRead(x, more);
      ItemsRead(items[1..], open, rest);
      if open {
        OpenItemsStep(Meant(x), ItemsMeant(items[1..]), p, more, rest);
      } else {
        DecodeItemsStep(Meant(x), ItemsMeant(items[1..]), p, more, rest);
      }
    }
  }

  // ---- and strict decoding tells them apart ----------------------------------------------------

  lemma CheckedAnswer(v: Value, rest: seq<byte>, plain: seq<byte>)
    requires v.Map?
    ensures CheckMap(Got(v, rest), plain) == Ok(v.entries) || CheckMap(Got(v, rest), plain) == Err(NonCanonical)
  {
    hide Encode, DistinctKeys;
  }

  /**
   * Strict decoding of anything at all that spells an item: no map is `Malformed`; a map is taken
   * when nothing follows it, it is spelled canonically and its top-level keys are distinct; and
   * every other map, whatever follows it, is `NonCanonical`.
   */
  lemma SpellingAnswer(s: Spelling, rest: seq<byte>)
    requires Possible(s) && |BytesOf(s) + rest| < TWO_64
    ensures var plain, v := BytesOf(s) + rest, Meant(s);
            StrictMap(plain)
            == if !v.Map? then Err(Malformed)
               else if plain == Encode(v) && Clean(v) && DistinctKeys(v.entries) then Ok(v.entries)
               else Err(NonCanonical)
  {
    hide BytesOf, Meant, Possible, Encode, Decode, DistinctKeys, Clean;
    var plain, v := BytesOf(s) + rest, Meant(s);
    SpellingRead(s, rest);
    if v.Map? {
      assert v == Map(v.entries);
      CheckedAnswer(v, rest, plain);
      if StrictMap(plain).Ok? { StrictMapResult(plain); }
      if plain == Encode(v) && Clean(v) && DistinctKeys(v.entries) {
        ShortEncodingFits(v);
        StrictMapAccepts(v.entries);
      }
    }
  }

  // ---- the longest spelling of a value ---------------------------------------------------------

  function LongItems(items: seq<Value>): (ss: seq<Spelling>)
  {
    if |items| == 0 then [] else [LongSpelling(items[0])] + LongItems(items[1..])
  }

  function LongEntries(entries: seq<Entry>): (ss: seq<SpelledEntry>)
  {
    if |entries| == 0 then []
    else
      assert entries decreases to entries[0];
      [SpelledEntry(LongSpelling(entries[0].key), LongSpelling(entries[0].val))] + LongEntries(entries[1..])
  }

  /** Eight-byte arguments and doubles throughout, and every container left open. */
  function LongSpelling(v: Value): (s: Spelling)
  {
    match v
    case Int(n) => AnInt(n, 27)
    case Bytes(b) => SomeBytes(b, 27)
    case Text(t) => SomeText(t, 27)
    case Array(items) => AnOpenArray(LongItems(items))
    case Map(entries) => AnOpenMap(LongEntries(entries))
    case Tag(t, inner) => ATag(t, LongSpelling(inner), 27)
    case Bool(b) => ASimple(if b then 21 else 20, 24)
    case Null => ASimple(23, 24)
    case Float(bits) => ADouble(bits)
  }

  lemma {:induction false} LongEntriesMean(entries: seq<Entry>)
    requires FitsEntries(entries)
    ensures forall e :: e in LongEntries(entries) ==> PossibleEntry(e)
    ensures EntriesMeant(LongEntries(entries)) == entries
    decreases entries, 1
  {
    hide Fits, LongSpelling, Possible, Meant;
    if |entries| > 0 {
      assert entries decreases to entries[0];
      LongSpellingMeans(entries[0].key);
      LongSpellingMeans(entries[0].val);
      LongEntriesMean(entries[1..]);
      assert [entries[0]] + entries[1..] == entries;
    }
  }

  lemma {:induction false} LongSpellingMeans(v: Value)
    requires Fits(v)
    ensures Possible(LongSpelling(v)) && Meant(LongSpelling(v)) == v
    decreases v, 0
  {
    hide ItemsMeant, EntriesMeant, LongItems, LongEntries;
    Pow256Values();
    match v
    case Array(items) => LongItemsMean(items);
    case Map(entries) => LongEntriesMean(entries);
    case Tag(_, inner) => LongSpellingMeans(inner);
    case _ =>
  }

  lemma {:induction false} LongItemsMean(items: seq<Value>)
    requires FitsItems(items)
    ensures (forall x :: x in LongItems(items) ==> Possible(x)) && ItemsMeant(LongItems(items)) == items
    decreases items, 1
  {
    hide Fits, LongSpelling, Possible, Meant;
    if |items| > 0 {
      LongSpellingMeans(items[0]);
      LongItemsMean(items[1..]);
      assert [items[0]] + items[1..] == items;
    }
  }

  lemma OpenIsNotWritten(es: seq<Entry>)
    requires Possible(LongSpelling(Map(es)))
    ensures BytesOf(LongSpelling(Map(es)))[0] == 0xbf && Encode(Map(es))[0] != 0xbf
  {
    hide LongItems, LongEntries, ItemsBytes, EntriesBytes, EncodeEntries, BigEndian;
  }

  /** Every map there is has a spelling that is read as that map and that strict decoding refuses. */
  lemma EveryMapIsReadAndRefused(es: seq<Entry>)
    requires Fits(Map(es))
    ensures var s := LongSpelling(Map(es));
            Possible(s)
            && Decode(BytesOf(s)) == Got(Map(es), [])
            && (|BytesOf(s)| < TWO_64 ==> StrictMap(BytesOf(s)) == Err(NonCanonical))
  {
    hide LongItems, LongEntries, Possible, Meant, ItemsBytes, EntriesBytes;
    hide Decode, StrictMap, Clean, DistinctKeys, Fits;
    LongSpellingMeans(Map(es));
    var s := LongSpelling(Map(es));
    assert BytesOf(s) + [] == BytesOf(s);
    SpellingRead(s, []);
    assert BytesOf(s)[0] == 0xbf && Encode(Map(es))[0] != 0xbf by { OpenIsNotWritten(es); }
    if |BytesOf(s)| < TWO_64 { SpellingAnswer(s, []); }
  }

  // ---- truncation -----------------------------------------------------------------------------

  lemma HeadExtends(p: seq<byte>, x: seq<byte>)
    requires ReadHead(p).Got?
    ensures ReadHead(p + x) == Got(ReadHead(p).value, ReadHead(p).rest + x)
  {
    var w := ArgWidth(p[0] % 32);
    assert (p + x)[1..1 + w] == p[1..1 + w] && (p + x)[1 + w..] == p[1 + w..] + x;
  }

  lemma {:induction false} ChunksExtend(major: nat, p: seq<byte>, x: seq<byte>)
    requires ReadChunks(major, p).Got?
    ensures ReadChunks(major, p + x) == Got(ReadChunks(major, p).value, ReadChunks(major, p).rest + x)
    decreases |p|
  {
    hide ReadHead, IsUtf8;
    if p[0] == BREAK {
      assert (p + x)[1..] == p[1..] + x;
    } else {
      HeadExtends(p, x);
      var h, rest := ReadHead(p).value, ReadHead(p).rest;
      assert (rest + x)[..h.arg] == rest[..h.arg] && (rest + x)[h.arg..] == rest[h.arg..] + x;
      ChunksExtend(major, rest[h.arg..], x);
    }
  }

  lemma StringExtends(major: nat, info: nat, arg: nat, p: seq<byte>, x: seq<byte>)
    requires ReadString(major, info, arg, p).Got?
    ensures ReadString(major, info, arg, p + x)
         == Got(ReadString(major, info, arg, p).value, ReadString(major, info, arg, p).rest + x)
  {
    hide ReadChunks, IsUtf8;
    if info == 31 {
      ChunksExtend(major, p, x);
    } else {
      assert (p + x)[..arg] == p[..arg] && (p + x)[arg..] == p[arg..] + x;
    }
  }

  lemma DecodeConsumes(p: seq<byte>)
    ensures Decode(p).Got? ==> |p| > 0
  {
    hide DecodeContent;
  }

  lemma {:induction false} EntriesExtend(count: Option<nat>, p: seq<byte>, x: seq<byte>)
    requires DecodeEntries(count, p).Got?
    ensures DecodeEntries(count, p + x) == Got(DecodeEntries(count, p).value, DecodeEntries(count, p).rest + x)
    decreases |p|, 1
  {
    hide Decode;
    if count == Some(0) {
    } else if count.None? && |p| > 0 && p[0] == BREAK {
      assert (p + x)[1..] == p[1..] + x;
    } else {
      DecodeExtends(p, x);
      var mid := Decode(p).rest;
      DecodeExtends(mid, x);
      EntriesExtend(if count.None? then None else Some(count.value - 1), Decode(mid).rest, x);
      assert |p| > 0 by { DecodeConsumes(p); }
      assert (p + x)[0] == p[0];
    }
  }

  lemma {:induction false} ContentExtends(h: Head, p: seq<byte>, x: seq<byte>)
    requires h.arg < TWO_64 && (ArgWidth(h.info) > 0 ==> h.arg < Pow256(ArgWidth(h.info)))
    requires DecodeContent(h, p).Got?
    ensures DecodeContent(h, p + x) == Got(DecodeContent(h, p).value, DecodeContent(h, p).rest + x)
    decreases |p|, 2
  {
    hide Decode, DecodeItems, DecodeEntries, ReadString, ReadSimple;
    match h.major
    case 2 => StringExtends(2, h.info, h.arg, p, x);
    case 3 => StringExtends(3, h.info, h.arg, p, x);
    case 4 => ItemsExtend(if h.info == 31 then None else Some(h.arg), p, x);
    case 5 => EntriesExtend(if h.info == 31 then None else Some(h.arg), p, x);
    case 6 => DecodeExtends(p, x);
    case _ =>
  }

  /** What follows an item never changes how it is read. */
  lemma {:induction false} DecodeExtends(p: seq<byte>, x: seq<byte>)
    requires Decode(p).Got?
    ensures Decode(p + x) == Got(Decode(p).value, Decode(p).rest + x)
    decreases |p|, 0
  {
    hide DecodeContent, ReadHead;
    HeadExtends(p, x);
    ContentExtends(ReadHead(p).value, ReadHead(p).rest, x);
  }

  lemma {:induction false} ItemsExtend(count: Option<nat>, p: seq<byte>, x: seq<byte>)
    requires DecodeItems(count, p).Got?
    ensures DecodeItems(count, p + x) == Got(DecodeItems(count, p).value, DecodeItems(count, p).rest + x)
    decreases |p|, 1
  {
    hide Decode;
    if count == Some(0) {
    } else if count.None? && |p| > 0 && p[0] == BREAK {
      assert (p + x)[1..] == p[1..] + x;
    } else {
      DecodeExtends(p, x);
      ItemsExtend(if count.None? then None else Some(count.value - 1), Decode(p).rest, x);
      assert |p| > 0 by { DecodeConsumes(p); }
      assert (p + x)[0] == p[0];
    }
  }

  /** Any spelling of any item, cut short anywhere, is `Malformed`. */
  lemma TruncatedIsMalformed(s: Spelling, n: nat)
    requires Possible(s) && n < |BytesOf(s)|
    ensures StrictMap(BytesOf(s)[..n]) == Err(Malformed)
  {
    hide Decode, BytesOf, Meant, Possible, Encode;
    var whole, front := BytesOf(s), BytesOf(s)[..n];
    SpellingRead(s, []);
    assert whole + [] == whole && front + whole[n..] == whole;
    if Decode(front).Got? {
      DecodeExtends(front, whole[n..]);
      assert false;
    }
  }
}
