/**
 * The canonical byte grammar of RFC 8949 section 4.2.1 with obsigil's restrictions, on byte
 * strings alone: no data model, no writer and no reader. Items have shortest heads and definite
 * lengths, floats use the narrowest width that holds them and are never NaN, and map keys are
 * integers or texts in bytewise order.
 */
module CanonicalGrammar {
  import opened Basics
  import opened ByteStrings
  import opened Floats

  datatype ItemHead = ItemHead(major: nat, arg: nat)

  /** A whole byte string read as a shortest-form head. */
  function ShortHead(h: seq<byte>): (r: Option<ItemHead>)
    ensures r.Some? ==> |h| > 0 && r.value.major < 8
  {
    if |h| == 0 then None
    else
      var major, info, arg := h[0] / 32, h[0] % 32, FromBigEndian(h[1..]);
      if |h| == 1 && info < 24 then Some(ItemHead(major, info))
      else if |h| == 2 && info == 24 && arg >= 24 then Some(ItemHead(major, arg))
      else if |h| == 3 && info == 25 && arg >= 0x100 then Some(ItemHead(major, arg))
      else if |h| == 5 && info == 26 && arg >= 0x1_0000 then Some(ItemHead(major, arg))
      else if |h| == 9 && info == 27 && arg >= 0x1_0000_0000 then Some(ItemHead(major, arg))
      else None
  }

  /** A float at its narrowest width, and not NaN. */
  ghost predicate IsFloat(b: seq<byte>)
  {
    |b| > 0 &&
    var n := FromBigEndian(b[1..]);
    Pow256Values();
    || (|b| == 3 && b[0] == 0xf9 && !IsNan(WidenHalf(n)))
    || (|b| == 5 && b[0] == 0xfa && !IsNan(WidenSingle(n)) && !FitsHalf(WidenSingle(n)))
    || (|b| == 9 && b[0] == 0xfb && !IsNan(n) && !FitsHalf(n) && !FitsSingle(n))
  }

  ghost predicate IsKey(k: seq<byte>)
    decreases |k|, 1
  {
    |k| > 0 && k[0] / 32 in {0, 1, 3} && IsItem(k)
  }

  /** `n` entries whose keys follow `previous` in bytewise order, without repetition if `strict`. */
  ghost predicate IsEntries(n: nat, b: seq<byte>, previous: seq<byte>, strict: bool)
    decreases |b|, 1
  {
    if n == 0 then |b| == 0
    else
      exists i, j :: 0 < i < j <= |b|
        && IsKey(b[..i]) && (if strict then LexLt(previous, b[..i]) else LexLe(previous, b[..i]))
        && IsItem(b[i..j])
        && IsEntries(n - 1, b[j..], b[..i], strict)
  }

  ghost predicate HeadAndContent(h: seq<byte>, content: seq<byte>)
    decreases |content|, 2
  {
    match ShortHead(h)
    case None => false
    case Some(ItemHead(major, n)) =>
      match major
      case 0 => |content| == 0
      case 1 => |content| == 0
      case 2 => |content| == n
      case 3 => |content| == n && IsUtf8(content)
      case 4 => IsItems(n, content)
      case 5 => IsEntries(n, content, [], false)
      case 6 => n != 2 && n != 3 && IsItem(content)
      case _ => |content| == 0 && 20 <= n <= 22
  }

  ghost predicate IsItem(b: seq<byte>)
    decreases |b|, 0
  {
    IsFloat(b) || exists i :: 0 < i <= |b| && HeadAndContent(b[..i], b[i..])
  }

  /** `n` items, one after the other. */
  ghost predicate IsItems(n: nat, b: seq<byte>)
    decreases |b|, 1
  {
    if n == 0 then |b| == 0
    else exists i :: 0 < i <= |b| && IsItem(b[..i]) && IsItems(n - 1, b[i..])
  }

  ghost predicate MapHeadAndContent(h: seq<byte>, content: seq<byte>)
  {
    var head := ShortHead(h);
    head.Some? && head.value.major == 5 && IsEntries(head.value.arg, content, [], true)
  }

  /** One definite-length map with nothing after it and no repeated top-level key. */
  ghost predicate IsCanonicalMap(b: seq<byte>)
  {
    exists i :: 0 < i <= |b| && MapHeadAndContent(b[..i], b[i..])
  }
}
