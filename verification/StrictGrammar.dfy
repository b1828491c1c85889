/** Strict decoding accepts exactly the canonical byte grammar. */
module StrictGrammar {
  import opened Basics
  import opened ByteStrings
  import opened Floats
  import opened Cbor
  import opened UniqueDecoding
  import opened KeySort
  import opened Canonical
  import opened StrictDecoding
  import opened CanonicalGrammar

  // ---- heads and floats -----------------------------------------------------------------------

  lemma WrittenHeadIsShort(major: nat, n: nat)
    requires major < 8 && n < TWO_64
    ensures ShortHead(EncodeHead(major, n)) == Some(ItemHead(major, n))
  {
    var h, info := EncodeHead(major, n), ShortestInfo(n);
    var w := ArgWidth(info);
    assert h[0] / 32 == major && h[0] % 32 == info;
    assert h[1..] == BigEndian(n, w);
    if w > 0 {
      assert n < Pow256(w) by { Pow256Values(); }
      FromToBigEndian(n, w);
    }
  }

  lemma ShortHeadIsWritten(h: seq<byte>)
    requires ShortHead(h).Some?
    ensures var head := ShortHead(h).value;
            head.arg < TWO_64 && h == EncodeHead(head.major, head.arg)
  {
    hide BigEndian, FromBigEndian, Pow256;
    var head, w := ShortHead(h).value, |h| - 1;
    Pow256Values();
    ToFromBigEndian(h[1..]);
    assert ShortestInfo(head.arg) == h[0] % 32 && ArgWidth(h[0] % 32) == w;
    assert h[1..] == BigEndian(head.arg, w);
    assert h == [h[0]] + h[1..];
  }

  lemma WrittenFloat(bits: u64)
    requires !IsNan(bits)
    ensures IsFloat(EncodeFloat(bits))
  {
    hide WidenHalf, WidenSingle, IsNan, BigEndian, FromBigEndian;
    Pow256Values();
    var b := EncodeFloat(bits);
    var n := if FitsHalf(bits) then ToHalf(bits) else if FitsSingle(bits) then ToSingle(bits) else bits;
    assert b[1..] == BigEndian(n, |b| - 1);
    FromToBigEndian(n, |b| - 1);
  }

  lemma FloatIsWritten(b: seq<byte>) returns (bits: u64)
    requires IsFloat(b)
    ensures b == EncodeFloat(bits) && !IsNan(bits)
  {
    hide WidenHalf, WidenSingle, IsNan, BigEndian, FromBigEndian;
    Pow256Values();
    var n := FromBigEndian(b[1..]);
    ToFromBigEndian(b[1..]);
    assert b == [b[0]] + BigEndian(n, |b| - 1);
    if |b| == 3 {
      bits := WidenHalf(n);
      assert FitsHalf(bits);
      WidenHalfInjective(n, ToHalf(bits));
    } else if |b| == 5 {
      bits := WidenSingle(n);
      assert FitsSingle(bits);
      WidenSingleInjective(n, ToSingle(bits));
    } else {
      bits := n;
    }
  }

  // ---- putting items together -----------------------------------------------------------------

  lemma ItemFromParts(h: seq<byte>, content: seq<byte>)
    requires |h| > 0 && HeadAndContent(h, content)
    ensures IsItem(h + content)
  {
    hide HeadAndContent, IsFloat;
    assert (h + content)[..|h|] == h && (h + content)[|h|..] == content;
  }

  lemma ConsItem(n: nat, first: seq<byte>, rest: seq<byte>)
    requires |first| > 0 && IsItem(first) && IsItems(n, rest)
    ensures IsItems(n + 1, first + rest)
  {
    hide IsItem;
    assert (first + rest)[..|first|] == first && (first + rest)[|first|..] == rest;
  }

  lemma KeyNonEmpty(k: seq<byte>)
    requires IsKey(k)
    ensures |k| > 0
  {
    hide IsItem;
  }

  lemma ConsEntry(n: nat, k: seq<byte>, v: seq<byte>, rest: seq<byte>, previous: seq<byte>, strict: bool)
    requires IsKey(k) && IsItem(v) && |v| > 0
    requires if strict then LexLt(previous, k) else LexLe(previous, k)
    requires IsEntries(n, rest, k, strict)
    ensures IsEntries(n + 1, k + v + rest, previous, strict)
  {
    hide IsItem, IsKey, LexLe, LexLt;
    var b, i, j := k + v + rest, |k|, |k| + |v|;
    assert |k| > 0 by { KeyNonEmpty(k); }
    assert b[..i] == k && b[i..j] == v && b[j..] == rest;
  }

  lemma FirstByte(v: Value)
    ensures Encode(v)[0] / 32 in {0, 1, 3} <==> IsIntOrText(v)
  {
    hide EncodeItems, EncodeEntries, BigEndian;
  }

  // ---- written values are in the grammar ------------------------------------------------------

  lemma SimpleItem(b: byte)
    requires 0xf4 <= b <= 0xf6
    ensures IsItem([b])
  {
    hide IsItem, IsItems, IsEntries;
    assert HeadAndContent([b], []);
    ItemFromParts([b], []);
    assert [b] + [] == [b];
  }

  lemma FloatItem(b: seq<byte>)
    requires IsFloat(b)
    ensures IsItem(b)
  {
    hide IsFloat, HeadAndContent;
  }

  lemma WrittenScalar(v: Value)
    requires Clean(v) && Fits(v) && !v.Array? && !v.Map? && !v.Tag?
    ensures IsItem(Encode(v))
  {
    hide EncodeHead, EncodeFloat, IsNan, IsFloat, ShortHead, IsItem, IsItems, IsEntries;
    match v
    case Int(n) =>
      var major, arg := if n >= 0 then 0 else 1, if n >= 0 then n else -1 - n;
      WrittenHeadIsShort(major, arg);
      ItemFromParts(EncodeHead(major, arg), []);
      assert EncodeHead(major, arg) + [] == EncodeHead(major, arg);
    case Bytes(b) =>
      WrittenHeadIsShort(2, |b|);
      ItemFromParts(EncodeHead(2, |b|), b);
    case Text(t) =>
      WrittenHeadIsShort(3, |t|);
      ItemFromParts(EncodeHead(3, |t|), t);
    case Bool(b) => SimpleItem(if b then 0xf5 else 0xf4);
    case Null => SimpleItem(0xf6);
    case Float(bits) =>
      WrittenFloat(bits);
      FloatItem(EncodeFloat(bits));
    case _ =>
  }

  lemma {:induction false} WrittenArray(items: seq<Value>)
    requires Clean(Array(items)) && Fits(Array(items))
    ensures IsItem(Encode(Array(items)))
    decreases items, 2
  {
    hide EncodeHead, EncodeItems, ShortHead, IsItem, IsItems, IsEntries;
    WrittenItems(items);
    WrittenHeadIsShort(4, |items|);
    ItemFromParts(EncodeHead(4, |items|), EncodeItems(items));
  }

  /** An entry as the grammar wants it. */
  ghost predicate CleanEntry(e: Entry)
  {
    IsIntOrText(e.key) && Clean(e.key) && Clean(e.val)
  }

  ghost predicate CleanEntries(es: seq<Entry>)
  {
    forall e :: e in es ==> CleanEntry(e)
  }

  lemma MapEntriesClean(es: seq<Entry>)
    ensures Clean(Map(es)) <==> CleanEntries(es) && Sorted(es)
  {
    hide Sorted;
    forall e | e in es
      ensures CleanEntry(e) <==> !EntryContainsNan(e) && !EntryInvalid(e) && SortedDeepEntry(e)
    {
    }
  }

  lemma {:induction false} WrittenEntries(es: seq<Entry>, previous: seq<byte>, strict: bool)
    requires CleanEntries(es) && FitsEntries(es)
    requires if strict then StrictlySorted(es) else Sorted(es)
    requires |es| > 0 ==> if strict then LexLt(previous, KeyBytes(es[0])) else LexLe(previous, KeyBytes(es[0]))
    ensures IsEntries(|es|, EncodeEntries(es), previous, strict)
    decreases es, 1
  {
    hide Encode, Clean, Fits, IsItem, LexLe, LexLt;
    if |es| > 0 {
      assert es decreases to es[0];
      var e := es[0];
      assert CleanEntry(e);
      WrittenItem(e.key);
      WrittenItem(e.val);
      FirstByte(e.key);
      WrittenEntries(es[1..], KeyBytes(e), strict);
      ConsEntry(|es| - 1, Encode(e.key), Encode(e.val), EncodeEntries(es[1..]), previous, strict);
    }
  }

  lemma {:induction false} WrittenMap(entries: seq<Entry>)
    requires Clean(Map(entries)) && Fits(Map(entries))
    ensures IsItem(Encode(Map(entries)))
    decreases entries, 2
  {
    hide EncodeHead, EncodeEntries, ShortHead, IsItem, IsItems, IsEntries;
    MapEntriesClean(entries);
    WrittenEntries(entries, [], false);
    WrittenHeadIsShort(5, |entries|);
    ItemFromParts(EncodeHead(5, |entries|), EncodeEntries(entries));
  }

  lemma {:induction false} WrittenTag(t: TagNumber, inner: Value)
    requires Clean(Tag(t, inner)) && Fits(Tag(t, inner))
    ensures IsItem(Encode(Tag(t, inner)))
    decreases inner, 1
  {
    hide EncodeHead, ShortHead, IsItem, IsItems, IsEntries;
    WrittenItem(inner);
    WrittenHeadIsShort(6, t);
    ItemFromParts(EncodeHead(6, t), Encode(inner));
  }

  lemma {:induction false} WrittenItem(v: Value)
    requires Clean(v) && Fits(v)
    ensures IsItem(Encode(v))
    decreases v, 0
  {
    hide *;
    match v
    case Array(items) => WrittenArray(items);
    case Map(entries) => WrittenMap(entries);
    case Tag(t, inner) => WrittenTag(t, inner);
    case _ => WrittenScalar(v);
  }

  lemma {:induction false} WrittenItems(items: seq<Value>)
    requires forall x :: x in items ==> Clean(x) && Fits(x)
    ensures IsItems(|items|, EncodeItems(items))
    decreases items, 1
  {
    hide Encode, Clean, Fits, IsItem;
    if |items| > 0 {
      WrittenItem(items[0]);
      WrittenItems(items[1..]);
      ConsItem(|items| - 1, Encode(items[0]), EncodeItems(items[1..]));
    }
  }

  // ---- the grammar holds nothing but written values -------------------------------------------

  lemma SimpleHead(n: nat)
    requires 20 <= n <= 22
    ensures EncodeHead(7, n) == [7 * 32 + n]
  {
  }

  lemma {:induction false} KeyIsWritten(k: seq<byte>) returns (v: Value)
    requires IsKey(k)
    ensures Encode(v) == k && Clean(v) && IsIntOrText(v)
    decreases |k|, 1
  {
    hide IsItem, Clean, Encode;
    v := ItemIsWritten(k);
    FirstByte(v);
  }

  lemma NothingWritten()
    ensures EncodeEntries([]) == []
  {
  }

  lemma EntryWritten(e: Entry, rest: seq<Entry>)
    ensures EncodeEntries([e] + rest) == Encode(e.key) + Encode(e.val) + EncodeEntries(rest)
  {
    hide Encode;
    assert ([e] + rest)[1..] == rest;
  }

  lemma {:induction false} EntriesAreWritten(n: nat, b: seq<byte>, previous: seq<byte>, strict: bool)
    returns (es: seq<Entry>)
    requires IsEntries(n, b, previous, strict)
    ensures |es| == n && EncodeEntries(es) == b && CleanEntries(es)
    ensures if strict then StrictlySorted(es) else Sorted(es)
    ensures |es| > 0 ==> if strict then LexLt(previous, KeyBytes(es[0])) else LexLe(previous, KeyBytes(es[0]))
    decreases |b|, 1
  {
    hide IsItem, IsKey, Clean, Encode, EncodeEntries, LexLe, LexLt;
    if n == 0 {
      es := [];
      NothingWritten();
    } else {
      var i, j :| 0 < i < j <= |b|
        && IsKey(b[..i]) && (if strict then LexLt(previous, b[..i]) else LexLe(previous, b[..i]))
        && IsItem(b[i..j])
        && IsEntries(n - 1, b[j..], b[..i], strict);
      var k := KeyIsWritten(b[..i]);
      var v := ItemIsWritten(b[i..j]);
      var rest := EntriesAreWritten(n - 1, b[j..], b[..i], strict);
      es := [Entry(k, v)] + rest;
      EntryWritten(Entry(k, v), rest);
      assert b == b[..i] + b[i..j] + b[j..];
    }
  }

  lemma {:induction false} ContentIsWritten(h: seq<byte>, content: seq<byte>) returns (v: Value)
    requires HeadAndContent(h, content)
    ensures Encode(v) == h + content && Clean(v)
    decreases |content|, 2
  {
    hide EncodeHead, EncodeItems, EncodeEntries, ShortHead, IsItem, IsItems, IsEntries, Sorted;
    ShortHeadIsWritten(h);
    var head := ShortHead(h).value;
    var n: int := head.arg;
    match head.major {
      case 0 =>
        v := Int(n);
        assert h + content == h;
      case 1 =>
        v := Int(-1 - n);
        assert h + content == h;
      case 2 => v := Bytes(content);
      case 3 => v := Text(content);
      case 4 =>
        var items := ItemsAreWritten(n, content);
        v := Array(items);
      case 5 =>
        var es := EntriesAreWritten(n, content, [], false);
        MapEntriesClean(es);
        v := Map(es);
      case 6 =>
        var inner := ItemIsWritten(content);
        v := Tag(n, inner);
      case _ =>
        SimpleHead(n);
        v := if n == 22 then Null else Bool(n == 21);
        assert h + content == h;
    }
  }

  lemma {:induction false} ItemIsWritten(b: seq<byte>) returns (v: Value)
    requires IsItem(b)
    ensures Encode(v) == b && Clean(v)
    decreases |b|, 0
  {
    hide EncodeFloat, EncodeHead, HeadAndContent, IsFloat, IsNan;
    if IsFloat(b) {
      var bits := FloatIsWritten(b);
      v := Float(bits);
    } else {
      var i :| 0 < i <= |b| && HeadAndContent(b[..i], b[i..]);
      v := ContentIsWritten(b[..i], b[i..]);
      assert b == b[..i] + b[i..];
    }
  }

  lemma {:induction false} ItemsAreWritten(n: nat, b: seq<byte>) returns (items: seq<Value>)
    requires IsItems(n, b)
    ensures |items| == n && EncodeItems(items) == b
    ensures forall x :: x in items ==> Clean(x)
    decreases |b|, 1
  {
    hide IsItem, Clean, Encode;
    if n == 0 {
      items := [];
    } else {
      var i :| 0 < i <= |b| && IsItem(b[..i]) && IsItems(n - 1, b[i..]);
      var first := ItemIsWritten(b[..i]);
      var rest := ItemsAreWritten(n - 1, b[i..]);
      items := [first] + rest;
      assert items[1..] == rest;
      assert b == b[..i] + b[i..];
    }
  }

  // ---- the theorem ----------------------------------------------------------------------------

  lemma CanonicalMapWritten(es: seq<Entry>)
    requires Clean(Map(es)) && Fits(Map(es)) && DistinctKeys(es)
    ensures IsCanonicalMap(Encode(Map(es)))
  {
    hide EncodeHead, EncodeEntries, ShortHead, IsItem, IsItems, IsEntries, Sorted, DistinctKeys;
    hide StrictlySorted, Clean;
    MapEntriesClean(es);
    StrictlySortedIff(es);
    WrittenEntries(es, [], true);
    var h, content := EncodeHead(5, |es|), EncodeEntries(es);
    WrittenHeadIsShort(5, |es|);
    assert (h + content)[..|h|] == h && (h + content)[|h|..] == content;
    assert MapHeadAndContent(h, content);
  }

  lemma CanonicalMapIsWritten(b: seq<byte>) returns (es: seq<Entry>)
    requires IsCanonicalMap(b)
    ensures b == Encode(Map(es)) && Clean(Map(es)) && DistinctKeys(es)
  {
    hide EncodeHead, EncodeEntries, ShortHead, IsItem, IsItems, IsEntries, Sorted, DistinctKeys;
    hide StrictlySorted, Clean;
    var i :| 0 < i <= |b| && MapHeadAndContent(b[..i], b[i..]);
    ShortHeadIsWritten(b[..i]);
    es := EntriesAreWritten(ShortHead(b[..i]).value.arg, b[i..], [], true);
    StrictlySortedIff(es);
    MapEntriesClean(es);
    assert b == b[..i] + b[i..];
  }

  /**
   * Decoding leniently, re-encoding canonically and comparing accepts exactly the canonical byte
   * grammar: the comparison alone rules out unsorted keys, long heads, wide floats,
   * indefinite-length items and trailing bytes.
   */
  lemma StrictMapAcceptsExactlyTheGrammar(plain: seq<byte>)
    requires |plain| < TWO_64
    ensures StrictMap(plain).Ok? <==> IsCanonicalMap(plain)
  {
    hide *;
    if StrictMap(plain).Ok? {
      StrictMapResult(plain);
      CanonicalMapWritten(StrictMap(plain).value);
    }
    if IsCanonicalMap(plain) {
      var es := CanonicalMapIsWritten(plain);
      ShortEncodingFits(Map(es));
      StrictMapAccepts(es);
    }
  }
}
