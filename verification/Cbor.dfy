/**
 * CBOR data items, the shortest-form writer and the lenient reader underneath obsigil's canonical
 * serialization (RFC 8949). The writer never sorts; the reader accepts long heads,
 * indefinite-length items, `undefined` for null and anything at all after the item.
 */
module Cbor {
  import opened Basics
  import opened ByteStrings
  import opened Floats

  type Integer = n: int | -0x1_0000_0000_0000_0000 <= n < 0x1_0000_0000_0000_0000

  // Bignum tags are outside this data model.
  type TagNumber = t: u64 | t != 2 && t != 3

  datatype Value =
    | Int(n: Integer)
    | Bytes(bytes: seq<byte>)
    | Text(text: Str)
    | Array(items: seq<Value>)
    | Map(entries: seq<Entry>)
    | Tag(tag: TagNumber, inner: Value)
    | Bool(b: bool)
    | Null
    | Float(bits: u64)

  datatype Entry = Entry(key: Value, val: Value)

  const BREAK: byte := 0xff

  // ---- writer ---------------------------------------------------------------------------------

  /** Number of argument bytes that follow an initial byte with this additional information. */
  function ArgWidth(info: nat): (w: nat)
  {
    if info == 24 then 1 else if info == 25 then 2 else if info == 26 then 4 else if info == 27 then 8 else 0
  }

  /** The additional information of the shortest head carrying `n`. */
  function ShortestInfo(n: nat): (info: nat)
    ensures info < 28
  {
    if n < 24 then n else if n < 0x100 then 24 else if n < 0x1_0000 then 25 else if n < 0x1_0000_0000 then 26 else 27
  }

  /** Initial byte and argument; arguments of 2^64 and more, which no length in memory reaches, wrap. */
  function EncodeHead(major: nat, n: nat): (r: seq<byte>)
    requires major < 8
    ensures |r| == 1 + ArgWidth(ShortestInfo(n)) && r[0] == major * 32 + ShortestInfo(n)
  {
    [major * 32 + ShortestInfo(n)] + BigEndian(n, ArgWidth(ShortestInfo(n)))
  }

  function EncodeFloat(bits: u64): (r: seq<byte>)
  {
    if FitsHalf(bits) then [0xf9] + BigEndian(ToHalf(bits), 2)
    else if FitsSingle(bits) then [0xfa] + BigEndian(ToSingle(bits), 4)
    else [0xfb] + BigEndian(bits, 8)
  }

  function EncodeEntries(entries: seq<Entry>): (r: seq<byte>)
    ensures |entries| <= |r|
  {
    if |entries| == 0 then []
    else
      assert entries decreases to entries[0];
      Encode(entries[0].key) + Encode(entries[0].val) + EncodeEntries(entries[1..])
  }

  function Encode(v: Value): (r: seq<byte>)
    ensures |r| > 0
  {
    match v
    case Int(n) => if n >= 0 then EncodeHead(0, n) else EncodeHead(1, -1 - n)
    case Bytes(b) => EncodeHead(2, |b|) + b
    case Text(t) => EncodeHead(3, |t|) + t
    case Array(items) => EncodeHead(4, |items|) + EncodeItems(items)
    case Map(entries) => EncodeHead(5, |entries|) + EncodeEntries(entries)
    case Tag(t, inner) => EncodeHead(6, t) + Encode(inner)
    case Bool(b) => if b then [0xf5] else [0xf4]
    case Null => [0xf6]
    case Float(bits) => EncodeFloat(bits)
  }

  function EncodeItems(items: seq<Value>): (r: seq<byte>)
    ensures |items| <= |r|
  {
    if |items| == 0 then [] else Encode(items[0]) + EncodeItems(items[1..])
  }

  // ---- lenient reader -------------------------------------------------------------------------

  datatype Step<+T> = Fail | Got(value: T, rest: seq<byte>)

  datatype Head = Head(major: nat, info: nat, arg: nat)

  function ReadHead(p: seq<byte>): (r: Step<Head>)
    ensures r.Got? ==> |r.rest| < |p| && r.value.major < 8 && r.value.info < 32
    ensures r.Got? ==> r.value.arg < TWO_64
    ensures r.Got? && ArgWidth(r.value.info) > 0 ==> r.value.arg < Pow256(ArgWidth(r.value.info))
  {
    Pow256Values();
    if |p| == 0 then Fail
    else
      var info := p[0] % 32;
      var w := ArgWidth(info);
      if 28 <= info <= 30 || |p| < 1 + w then Fail
      else Got(Head(p[0] / 32, info, if w == 0 then info else FromBigEndian(p[1..1 + w])), p[1 + w..])
  }

  function ReadChunks(major: nat, p: seq<byte>): (r: Step<seq<byte>>)
    ensures r.Got? ==> |r.rest| <= |p| && (major == 3 ==> IsUtf8(r.value))
    decreases |p|
  {
    if |p| > 0 && p[0] == BREAK then Got([], p[1..])
    else match ReadHead(p)
      case Fail => Fail
      case Got(h, rest) =>
        if h.major != major || h.info == 31 || h.arg > |rest| || (major == 3 && !IsUtf8(rest[..h.arg])) then Fail
        else match ReadChunks(major, rest[h.arg..])
          case Fail => Fail
          case Got(more, rest') =>
            if major == 3 then Utf8Concat(rest[..h.arg], more); Got(rest[..h.arg] + more, rest')
            else Got(rest[..h.arg] + more, rest')
  }

  /** The content of a string item, definite or as chunks up to the break. */
  function ReadString(major: nat, info: nat, arg: nat, p: seq<byte>): (r: Step<seq<byte>>)
    ensures r.Got? ==> |r.rest| <= |p| && (major == 3 ==> IsUtf8(r.value))
  {
    if info == 31 then ReadChunks(major, p)
    else if arg > |p| || (major == 3 && !IsUtf8(p[..arg])) then Fail
    else Got(p[..arg], p[arg..])
  }

  function ReadSimple(info: nat, arg: nat): (r: Option<Value>)
    requires ArgWidth(info) > 0 ==> arg < Pow256(ArgWidth(info))
  {
    Pow256Values();
    if info <= 24 then
      if arg == 20 then Some(Bool(false)) else if arg == 21 then Some(Bool(true))
      else if arg == 22 || arg == 23 then Some(Null) else None
    else if info == 25 then Some(Float(WidenHalf(arg)))
    else if info == 26 then Some(Float(WidenSingle(arg)))
    else if info == 27 then Some(Float(arg))
    else None
  }

  function DecodeEntries(count: Option<nat>, p: seq<byte>): (r: Step<seq<Entry>>)
    ensures r.Got? ==> |r.rest| <= |p|
    decreases |p|, 1
  {
    if count == Some(0) then Got([], p)
    else if count.None? && |p| > 0 && p[0] == BREAK then Got([], p[1..])
    else match Decode(p)
      case Fail => Fail
      case Got(k, mid) =>
        match Decode(mid)
        case Fail => Fail
        case Got(v, rest) =>
          match DecodeEntries(if count.None? then None else Some(count.value - 1), rest)
          case Fail => Fail
          case Got(es, rest') => Got([Entry(k, v)] + es, rest')
  }

  /** The item whose head has just been read. */
  function DecodeContent(h: Head, p: seq<byte>): (r: Step<Value>)
    requires h.arg < TWO_64 && (ArgWidth(h.info) > 0 ==> h.arg < Pow256(ArgWidth(h.info)))
    ensures r.Got? ==> |r.rest| <= |p|
    decreases |p|, 2
  {
    match h.major
    case 0 => if h.info == 31 then Fail else Got(Int(h.arg), p)
    case 1 => if h.info == 31 then Fail else Got(Int(-1 - h.arg), p)
    case 2 => (match ReadString(2, h.info, h.arg, p)
               case Fail => Fail
               case Got(b, rest) => Got(Bytes(b), rest))
    case 3 => (match ReadString(3, h.info, h.arg, p)
               case Fail => Fail
               case Got(t, rest) => Got(Text(t), rest))
    case 4 => (match DecodeItems(if h.info == 31 then None else Some(h.arg), p)
               case Fail => Fail
               case Got(items, rest) => Got(Array(items), rest))
    case 5 => (match DecodeEntries(if h.info == 31 then None else Some(h.arg), p)
               case Fail => Fail
               case Got(entries, rest) => Got(Map(entries), rest))
    case 6 => if h.info == 31 || h.arg == 2 || h.arg == 3 then Fail
              else (match Decode(p)
                    case Fail => Fail
                    case Got(inner, rest) => Got(Tag(h.arg, inner), rest))
    case _ => (match ReadSimple(h.info, h.arg)
               case None => Fail
               case Some(v) => Got(v, p))
  }

  /** One data item from the front of `p`, however it is written. */
  function Decode(p: seq<byte>): (r: Step<Value>)
    ensures r.Got? ==> |r.rest| < |p|
    decreases |p|, 0
  {
    match ReadHead(p)
    case Fail => Fail
    case Got(h, rest) => DecodeContent(h, rest)
  }

  /** `count` items, or items up to the break when there is no count. */
  function DecodeItems(count: Option<nat>, p: seq<byte>): (r: Step<seq<Value>>)
    ensures r.Got? ==> |r.rest| <= |p|
    decreases |p|, 1
  {
    if count == Some(0) then Got([], p)
    else if count.None? && |p| > 0 && p[0] == BREAK then Got([], p[1..])
    else match Decode(p)
      case Fail => Fail
      case Got(v, rest) =>
        match DecodeItems(if count.None? then None else Some(count.value - 1), rest)
        case Fail => Fail
        case Got(vs, rest') => Got([v] + vs, rest')
  }
}
