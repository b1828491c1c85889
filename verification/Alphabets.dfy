/** The codecs against the alphabets and the bit layout that RFC 4648 writes down. */
module Alphabets {
  import opened Basics
  import opened ByteStrings
  import opened Types
  import opened TextCodec

  // ---- alphabets ------------------------------------------------------------------------------

  /** The symbols of base64url (RFC 4648 section 5) and of lowercase hexadecimal, each at its value. */
  function Alphabet(enc: Encoding): (symbols: string)
  {
    match enc
    case B64 => "ABCDEFGHIJKLMNOPQRSTUVWXYZ" + "abcdefghijklmnopqrstuvwxyz" + "0123456789" + "-_"
    case Hex => "0123456789abcdef"
  }

  lemma UpperCase(i: nat)
    requires i < 26
    ensures "ABCDEFGHIJKLMNOPQRSTUVWXYZ"[i] == (i + 65) as char
  {
  }

  lemma LowerCase(i: nat)
    requires i < 26
    ensures "abcdefghijklmnopqrstuvwxyz"[i] == (i + 97) as char
  {
  }

  lemma Digits(i: nat)
    requires i < 10
    ensures "0123456789"[i] == (i + 48) as char
  {
  }

  lemma IsDigit(c: char)
    ensures c in "0123456789" <==> '0' <= c <= '9'
  {
    if '0' <= c <= '9' { Digits(c as int - 48); }
    if c in "0123456789" {
      var i :| 0 <= i < 10 && "0123456789"[i] == c;
      Digits(i);
    }
  }

  lemma IsLowerCase(c: char)
    ensures c in "abcdefghijklmnopqrstuvwxyz" <==> 'a' <= c <= 'z'
  {
    if 'a' <= c <= 'z' { LowerCase(c as int - 97); }
    if c in "abcdefghijklmnopqrstuvwxyz" {
      var i :| 0 <= i < 26 && "abcdefghijklmnopqrstuvwxyz"[i] == c;
      LowerCase(i);
    }
  }

  lemma FourParts(a: string, b: string, c: string, d: string, i: nat)
    requires i < |a| + |b| + |c| + |d|
    ensures (a + b + c + d)[i]
         == if i < |a| then a[i]
            else if i < |a| + |b| then b[i - |a|]
            else if i < |a| + |b| + |c| then c[i - |a| - |b|]
            else d[i - |a| - |b| - |c|]
  {
  }

  /** The codecs' symbols are the alphabets' characters in order. */
  lemma SymbolIsInAlphabet(i: nat)
    requires i < 64
    ensures |Alphabet(B64)| == 64 && Symbol(i) == Alphabet(B64)[i]
  {
    FourParts("ABCDEFGHIJKLMNOPQRSTUVWXYZ", "abcdefghijklmnopqrstuvwxyz", "0123456789", "-_", i);
    if i < 26 { UpperCase(i); }
    else if i < 52 { LowerCase(i - 26); }
    else if i < 62 { Digits(i - 52); }
  }

  lemma HexDigitIsInAlphabet(i: nat)
    requires i < 16
    ensures |Alphabet(Hex)| == 16 && HexDigit(i) == Alphabet(Hex)[i]
  {
  }

  lemma {:induction false} EncodedInAlphabet(b: seq<byte>, enc: Encoding)
    ensures forall c :: c in EncodeText(b, enc) ==> c in Alphabet(enc)
    decreases |b|
  {
    hide Symbol, HexDigit, Alphabet;
    forall i: nat {:trigger Symbol(i)} | i < 64
      ensures Symbol(i) in Alphabet(B64)
    {
      SymbolIsInAlphabet(i);
    }
    forall i: nat {:trigger HexDigit(i)} | i < 16
      ensures HexDigit(i) in Alphabet(Hex)
    {
      HexDigitIsInAlphabet(i);
    }
    match enc
    case B64 => if |b| > 2 { EncodedInAlphabet(b[3..], enc); }
    case Hex => if |b| > 0 { EncodedInAlphabet(b[1..], enc); }
  }

  /** Whatever decodes is written in the alphabet alone: no padding, whitespace or other letter case. */
  lemma DecodedInAlphabet(t: string, enc: Encoding)
    ensures DecodeText(t, enc).Some? ==> forall c :: c in t ==> c in Alphabet(enc)
  {
    hide EncodeText, DecodeText, Alphabet;
    if DecodeText(t, enc).Some? {
      CodecBijection(t, DecodeText(t, enc).value, enc);
      EncodedInAlphabet(DecodeText(t, enc).value, enc);
    }
  }

  // ---- bit layout -----------------------------------------------------------------------------

  predicate AllSymbols(t: string)
  {
    forall c :: c in t ==> SymbolValue(c).Some?
  }

  /** Symbols read as digits of base 64, most significant first. */
  function Base64Number(t: string): (n: nat)
    requires AllSymbols(t)
  {
    if |t| == 0 then 0 else 64 * Base64Number(t[..|t| - 1]) + SymbolValue(t[|t| - 1]).value
  }

  lemma NumberPush(t: string, c: char)
    requires AllSymbols(t) && SymbolValue(c).Some?
    ensures AllSymbols(t + [c]) && Base64Number(t + [c]) == 64 * Base64Number(t) + SymbolValue(c).value
  {
    hide SymbolValue;
    assert (t + [c])[..|t|] == t;
  }

  lemma NumberOfTwo(a: char, b: char)
    requires SymbolValue(a).Some? && SymbolValue(b).Some?
    ensures AllSymbols([a, b])
    ensures Base64Number([a, b]) == 64 * SymbolValue(a).value + SymbolValue(b).value
  {
    hide SymbolValue;
    NumberPush("", a);
    assert "" + [a] == [a];
    NumberPush([a], b);
    assert [a] + [b] == [a, b];
  }

  lemma BytesNumber(b: seq<byte>)
    requires 1 <= |b| <= 3
    ensures |b| == 1 ==> FromBigEndian(b) == b[0]
    ensures |b| == 2 ==> FromBigEndian(b) == b[0] as int * 0x100 + b[1] as int
    ensures |b| == 3 ==> FromBigEndian(b) == b[0] as int * 0x1_0000 + b[1] as int * 0x100 + b[2] as int
  {
    assert FromBigEndian(b[..1][..0]) == 0;
    assert FromBigEndian(b[..1]) == b[0];
    if |b| > 1 {
      assert b[..2][..1] == b[..1];
      assert FromBigEndian(b[..2]) == b[0] as int * 0x100 + b[1] as int;
    }
    assert b[..|b|] == b;
  }

  /** One group's text is the group's bytes as a number, with zero bits behind to a whole symbol. */
  lemma GroupNumber(b: seq<byte>)
    requires 1 <= |b| <= 3
    ensures |EncodeB64(b)| == |b| + 1 && AllSymbols(EncodeB64(b))
    ensures Base64Number(EncodeB64(b))
         == FromBigEndian(b) * (if |b| == 1 then 16 else if |b| == 2 then 4 else 1)
  {
    hide Symbol, SymbolValue, FromBigEndian, Base64Number;
    BytesNumber(b);
    var x: nat, y: nat, z: nat := b[0], if |b| > 1 then b[1] else 0, if |b| > 2 then b[2] else 0;
    var v0, v1, v2, v3 := x / 4, x % 4 * 16 + y / 16, y % 16 * 4 + z / 64, z % 64;
    SymbolRound(v0);
    SymbolRound(v1);
    SymbolRound(v2);
    SymbolRound(v3);
    NumberOfTwo(Symbol(v0), Symbol(v1));
    NumberPush([Symbol(v0), Symbol(v1)], Symbol(v2));
    NumberPush([Symbol(v0), Symbol(v1), Symbol(v2)], Symbol(v3));
    assert [Symbol(v0), Symbol(v1)] + [Symbol(v2)] == [Symbol(v0), Symbol(v1), Symbol(v2)];
    if |b| == 1 {
      assert EncodeB64(b) == [Symbol(v0), Symbol(v1)];
    } else if |b| == 2 {
      assert EncodeB64(b) == [Symbol(v0), Symbol(v1), Symbol(v2)];
    } else {
      assert |b[3..]| == 0;
      assert EncodeB64(b) == [Symbol(v0), Symbol(v1), Symbol(v2)] + [Symbol(v3)];
    }
  }

  /** The `i`th of the groups of `n` that `s` falls into; the last may be short. */
  function Group<T>(s: seq<T>, i: nat, n: nat): (g: seq<T>)
  {
    if i * n >= |s| then [] else if i * n + n >= |s| then s[i * n..] else s[i * n..i * n + n]
  }

  lemma GroupBehind<T>(front: seq<T>, rest: seq<T>, i: nat)
    requires i > 0
    ensures Group(front + rest, i, |front|) == Group(rest, i - 1, |front|)
  {
    var n := |front|;
    assert i * n == (i - 1) * n + n;
  }

  lemma GroupInFront<T>(front: seq<T>, rest: seq<T>)
    ensures |front| > 0 ==> Group(front + rest, 0, |front|) == front
    ensures forall n: nat :: n >= |front| > 0 ==> Group(front, 0, n) == front
  {
  }

  /** Base64 works group by group: three bytes, or what is left of them, at a time in four symbols. */
  lemma {:induction false} EncodeB64ByGroups(b: seq<byte>, i: nat)
    requires 3 * i < |b|
    ensures Group(EncodeB64(b), i, 4) == EncodeB64(Group(b, i, 3))
    decreases i
  {
    hide EncodeB64, EncodeTriple, Group;
    EncodedLength(b, B64);
    if |b| <= 3 {
      GroupInFront(b, []);
      GroupInFront(EncodeB64(b), []);
    } else {
      var front, rest := b[..3], b[3..];
      assert b == front + rest;
      FrontGroup(front, rest);
      FrontGroup(front, []);
      EncodeNothing();
      assert front + [] == front;
      var head := EncodeTriple(front[0], front[1], front[2]);
      assert head + "" == head;
      assert EncodeB64(front) == head && EncodeB64(b) == head + EncodeB64(rest);
      if i == 0 {
        GroupInFront(front, rest);
        GroupInFront(head, EncodeB64(rest));
      } else {
        GroupBehind(front, rest, i);
        GroupBehind(head, EncodeB64(rest), i);
        EncodeB64ByGroups(rest, i - 1);
      }
    }
  }

  /** Hexadecimal works byte by byte: byte i is the value of digits 2i and 2i+1. */
  lemma {:induction false} EncodeHexByBytes(b: seq<byte>, i: nat)
    requires i < |b|
    ensures var t := EncodeHex(b);
            2 * i + 1 < |t| && HexValue(t[2 * i]).Some? && HexValue(t[2 * i + 1]).Some?
            && HexValue(t[2 * i]).value * 16 + HexValue(t[2 * i + 1]).value == b[i]
    decreases i
  {
    hide HexDigit, HexValue;
    HexRound(b[0] / 16);
    HexRound(b[0] % 16);
    if i > 0 { EncodeHexByBytes(b[1..], i - 1); }
  }

  lemma EncodeHexPush(x: byte, b: seq<byte>)
    ensures EncodeHex([x] + b) == [HexDigit(x / 16), HexDigit(x % 16)] + EncodeHex(b)
  {
    hide HexDigit;
    assert ([x] + b)[1..] == b;
  }

  /** Bytes written in hexadecimal. */
  lemma HexExample()
    ensures EncodeText([0x00, 0x0f, 0xa9, 0xff, 0x10], Hex) == "000fa9ff10"
  {
    EncodeHexPush(0x10, []);
    EncodeHexPush(0xff, [0x10]);
    EncodeHexPush(0xa9, [0xff, 0x10]);
    EncodeHexPush(0x0f, [0xa9, 0xff, 0x10]);
    EncodeHexPush(0x00, [0x0f, 0xa9, 0xff, 0x10]);
    assert [0x00] + [0x0f, 0xa9, 0xff, 0x10] == [0x00, 0x0f, 0xa9, 0xff, 0x10];
  }

  /** Bytes written in base64url, where the two alphabets of RFC 4648 differ. */
  lemma Base64Example()
    ensures EncodeText([0xfb], B64) == "-w" && EncodeText([0xff], B64) == "_w"
  {
  }

  lemma TrailingBits(v: nat)
    requires 0 < v < 4
    ensures DecodeSingle(0, v).None? && DecodePair(0, 0, v).None?
  {
  }

  /** Non-zero trailing bits, padding, a lone symbol, upper case and an odd digit are all refused. */
  lemma RefusedTexts()
    ensures DecodeText("AB", B64).None? && DecodeText("AAB", B64).None? && DecodeText("A", B64).None?
    ensures DecodeText("AA==", B64).None? && DecodeText("AB", Hex).None? && DecodeText("abc", Hex).None?
  {
    TrailingBits(1);
    assert SymbolValue('A') == Some(0) && SymbolValue('B') == Some(1) && SymbolValue('=').None?;
    assert HexValue('A').None? && DecodeHex("abc"[2..]).None?;
  }
}
