/**
 * The strict text codecs of a token's halves: base64url without padding (RFC 4648 section 5, with
 * the canonical trailing bits of section 3.5) and lowercase hexadecimal.
 */
module TextCodec {
  import opened Basics
  import opened Types

  // ---- symbols --------------------------------------------------------------------------------

  function Symbol(i: nat): (c: char)
    requires i < 64
  {
    if i < 26 then (i + 65) as char
    else if i < 52 then (i + 71) as char
    else if i < 62 then (i - 4) as char
    else if i == 62 then '-'
    else '_'
  }

  function SymbolValue(c: char): (r: Option<nat>)
    ensures forall i: nat :: r == Some(i) <==> i < 64 && Symbol(i) == c
  {
    var n := c as int;
    if 65 <= n < 91 then Some(n - 65)
    else if 97 <= n < 123 then Some(n - 71)
    else if 48 <= n < 58 then Some(n + 4)
    else if c == '-' then Some(62)
    else if c == '_' then Some(63)
    else None
  }

  function HexDigit(i: nat): (c: char)
    requires i < 16
  {
    if i < 10 then (i + 48) as char else (i + 87) as char
  }

  function HexValue(c: char): (r: Option<nat>)
    ensures forall i: nat :: r == Some(i) <==> i < 16 && HexDigit(i) == c
  {
    var n := c as int;
    if 48 <= n < 58 then Some(n - 48) else if 97 <= n < 103 then Some(n - 87) else None
  }

  // ---- codecs ---------------------------------------------------------------------------------

  function EncodeSingle(x: byte): (t: string)
    ensures |t| == 2
  {
    [Symbol(x / 4), Symbol(x % 4 * 16)]
  }

  function EncodePair(x: byte, y: byte): (t: string)
    ensures |t| == 3
  {
    [Symbol(x / 4), Symbol(x % 4 * 16 + y / 16), Symbol(y % 16 * 4)]
  }

  function EncodeTriple(x: byte, y: byte, z: byte): (t: string)
    ensures |t| == 4
  {
    [Symbol(x / 4), Symbol(x % 4 * 16 + y / 16), Symbol(y % 16 * 4 + z / 64), Symbol(z % 64)]
  }

  function EncodeB64(b: seq<byte>): (t: string)
  {
    if |b| == 0 then ""
    else if |b| == 1 then EncodeSingle(b[0])
    else if |b| == 2 then EncodePair(b[0], b[1])
    else EncodeTriple(b[0], b[1], b[2]) + EncodeB64(b[3..])
  }

  function DecodeSingle(v0: nat, v1: nat): (b: Option<seq<byte>>)
    requires v0 < 64 && v1 < 64
    ensures b.Some? ==> |b.value| == 1
  {
    if v1 % 16 == 0 then Some([v0 * 4 + v1 / 16]) else None
  }

  function DecodePair(v0: nat, v1: nat, v2: nat): (b: Option<seq<byte>>)
    requires v0 < 64 && v1 < 64 && v2 < 64
    ensures b.Some? ==> |b.value| == 2
  {
    if v2 % 4 == 0 then Some([v0 * 4 + v1 / 16, v1 % 16 * 16 + v2 / 4]) else None
  }

  function DecodeQuad(v0: nat, v1: nat, v2: nat, v3: nat): (b: seq<byte>)
    requires v0 < 64 && v1 < 64 && v2 < 64 && v3 < 64
    ensures |b| == 3
  {
    [v0 * 4 + v1 / 16, v1 % 16 * 16 + v2 / 4, v2 % 4 * 64 + v3]
  }

  /** Rejects foreign symbols, impossible lengths and non-zero trailing bits. */
  function DecodeB64(t: string): (r: Option<seq<byte>>)
  {
    if |t| == 0 then Some([])
    else if |t| == 1 then None
    else
      var v0, v1 := SymbolValue(t[0]), SymbolValue(t[1]);
      if v0.None? || v1.None? then None
      else if |t| == 2 then DecodeSingle(v0.value, v1.value)
      else
        var v2 := SymbolValue(t[2]);
        if v2.None? then None
        else if |t| == 3 then DecodePair(v0.value, v1.value, v2.value)
        else
          var v3, rest := SymbolValue(t[3]), DecodeB64(t[4..]);
          if v3.None? || rest.None? then None
          else
            Some(DecodeQuad(v0.value, v1.value, v2.value, v3.value) + rest.value)
  }

  function EncodeHex(b: seq<byte>): (t: string)
  {
    if |b| == 0 then "" else [HexDigit(b[0] / 16), HexDigit(b[0] % 16)] + EncodeHex(b[1..])
  }

  function DecodeHex(t: string): (r: Option<seq<byte>>)
  {
    if |t| == 0 then Some([])
    else if |t| == 1 then None
    else
      var hi, lo, rest := HexValue(t[0]), HexValue(t[1]), DecodeHex(t[2..]);
      if hi.None? || lo.None? || rest.None? then None
      else Some([hi.value * 16 + lo.value] + rest.value)
  }

  function EncodeText(b: seq<byte>, enc: Encoding): (t: string)
  {
    match enc
    case B64 => EncodeB64(b)
    case Hex => EncodeHex(b)
  }

  function DecodeText(t: string, enc: Encoding): (r: Option<seq<byte>>)
  {
    match enc
    case B64 => DecodeB64(t)
    case Hex => DecodeHex(t)
  }

  /** Text length of `n` sealed bytes. */
  function EncodedLen(n: nat, enc: Encoding): (len: nat)
  {
    match enc
    case B64 => (4 * n + 2) / 3
    case Hex => 2 * n
  }

  // ---- the codecs are bijections onto their canonical texts -----------------------------------

  lemma SymbolRound(i: nat)
    requires i < 64
    ensures SymbolValue(Symbol(i)) == Some(i)
  {
    hide Symbol;
  }

  lemma HexRound(i: nat)
    requires i < 16
    ensures HexValue(HexDigit(i)) == Some(i)
  {
    hide HexDigit;
  }

  lemma TripleRound(x: byte, y: byte, z: byte)
    ensures DecodeQuad(x / 4, x % 4 * 16 + y / 16, y % 16 * 4 + z / 64, z % 64) == [x, y, z]
  {
  }

  lemma QuadRound(v0: nat, v1: nat, v2: nat, v3: nat)
    requires v0 < 64 && v1 < 64 && v2 < 64 && v3 < 64
    ensures (v0 * 4 + v1 / 16) / 4 == v0
    ensures (v0 * 4 + v1 / 16) % 4 * 16 + (v1 % 16 * 16 + v2 / 4) / 16 == v1
    ensures (v1 % 16 * 16 + v2 / 4) % 16 * 4 + (v2 % 4 * 64 + v3) / 64 == v2
    ensures (v2 % 4 * 64 + v3) % 64 == v3
  {
  }

  lemma SingleRound(x: byte)
    ensures DecodeSingle(x / 4, x % 4 * 16) == Some([x])
  {
  }

  lemma SplitByte(high: nat, b: byte)
    requires high < 4
    ensures (high * 16 + b / 16) / 16 == high && (high * 16 + b / 16) % 16 == b / 16
    ensures b / 16 * 16 + b % 16 * 4 / 4 == b && b % 16 * 4 % 4 == 0
  {
  }

  lemma PairRound(x: byte, y: byte)
    ensures DecodePair(x / 4, x % 4 * 16 + y / 16, y % 16 * 4) == Some([x, y])
  {
    SplitByte(x % 4, y);
  }

  lemma EncodeDecodeSingle(v0: nat, v1: nat)
    requires v0 < 64 && v1 < 64 && DecodeSingle(v0, v1).Some?
    ensures EncodeSingle(DecodeSingle(v0, v1).value[0]) == [Symbol(v0), Symbol(v1)]
  {
    hide Symbol;
    QuadRound(v0, v1, 0, 0);
  }

  lemma EncodeDecodePair(v0: nat, v1: nat, v2: nat)
    requires v0 < 64 && v1 < 64 && v2 < 64 && DecodePair(v0, v1, v2).Some?
    ensures var b := DecodePair(v0, v1, v2).value;
            EncodePair(b[0], b[1]) == [Symbol(v0), Symbol(v1), Symbol(v2)]
  {
    hide Symbol;
    QuadRound(v0, v1, v2, 0);
  }

  lemma DecodeEncodeSingle(x: byte)
    ensures DecodeB64(EncodeSingle(x)) == Some([x])
  {
    hide Symbol, SymbolValue, DecodeSingle, DecodePair, DecodeQuad;
    SymbolRound(x / 4);
    SymbolRound(x % 4 * 16);
    SingleRound(x);
  }

  lemma DecodeEncodePair(x: byte, y: byte)
    ensures DecodeB64(EncodePair(x, y)) == Some([x, y])
  {
    hide Symbol, SymbolValue, DecodeSingle, DecodePair, DecodeQuad;
    SymbolRound(x / 4);
    SymbolRound(x % 4 * 16 + y / 16);
    SymbolRound(y % 16 * 4);
    PairRound(x, y);
  }

  lemma DecodeEncodeShort(b: seq<byte>)
    requires 1 <= |b| <= 2
    ensures DecodeB64(EncodeB64(b)) == Some(b)
  {
    hide DecodeB64, EncodeSingle, EncodePair;
    if |b| == 1 {
      DecodeEncodeSingle(b[0]);
      assert b == [b[0]];
    } else {
      DecodeEncodePair(b[0], b[1]);
      assert b == [b[0], b[1]];
    }
  }

  lemma {:induction false} DecodeEncodeB64(b: seq<byte>)
    ensures DecodeB64(EncodeB64(b)) == Some(b)
  {
    hide Symbol, SymbolValue, DecodeQuad, DecodeSingle, DecodePair, EncodeSingle, EncodePair;
    if 1 <= |b| <= 2 {
      DecodeEncodeShort(b);
    } else if |b| > 2 {
      var x, y, z := b[0], b[1], b[2];
      SymbolRound(x / 4);
      SymbolRound(x % 4 * 16 + y / 16);
      SymbolRound(y % 16 * 4 + z / 64);
      SymbolRound(z % 64);
      TripleRound(x, y, z);
      DecodeEncodeB64(b[3..]);
      assert EncodeB64(b)[4..] == EncodeB64(b[3..]);
      assert b == [x, y, z] + b[3..];
    }
  }

  lemma EncodeDecodeShort(t: string)
    requires 2 <= |t| <= 3 && DecodeB64(t).Some?
    ensures EncodeB64(DecodeB64(t).value) == t
  {
    hide Symbol, SymbolValue, DecodeSingle, DecodePair, EncodeSingle, EncodePair;
    var v0, v1 := SymbolValue(t[0]).value, SymbolValue(t[1]).value;
    if |t| == 2 {
      EncodeDecodeSingle(v0, v1);
      assert t == [Symbol(v0), Symbol(v1)];
    } else {
      var v2 := SymbolValue(t[2]).value;
      EncodeDecodePair(v0, v1, v2);
      assert t == [Symbol(v0), Symbol(v1), Symbol(v2)];
    }
  }

  lemma EncodeDecodeQuad(t: string)
    requires |t| == 4
    requires forall i :: 0 <= i < 4 ==> SymbolValue(t[i]).Some?
    ensures var v0, v1 := SymbolValue(t[0]).value, SymbolValue(t[1]).value;
            var b := DecodeQuad(v0, v1, SymbolValue(t[2]).value, SymbolValue(t[3]).value);
            EncodeTriple(b[0], b[1], b[2]) == t
  {
    hide Symbol;
    QuadRound(SymbolValue(t[0]).value, SymbolValue(t[1]).value, SymbolValue(t[2]).value, SymbolValue(t[3]).value);
  }

  lemma EncodeNothing()
    ensures EncodeB64([]) == ""
  {
  }

  lemma FrontGroup(b: seq<byte>, rest: seq<byte>)
    requires |b| == 3
    ensures EncodeB64(b + rest) == EncodeTriple(b[0], b[1], b[2]) + EncodeB64(rest)
  {
    hide EncodeTriple;
    assert (b + rest)[3..] == rest;
  }

  lemma {:induction false} EncodeDecodeB64(t: string)
    requires DecodeB64(t).Some?
    ensures EncodeB64(DecodeB64(t).value) == t
  {
    hide SymbolValue, DecodeQuad, EncodeTriple, EncodeB64;
    if |t| == 0 {
      EncodeNothing();
    } else if |t| <= 3 {
      EncodeDecodeShort(t);
    } else {
      EncodeDecodeB64(t[4..]);
      EncodeDecodeQuad(t[..4]);
      var v0, v1 := SymbolValue(t[0]).value, SymbolValue(t[1]).value;
      FrontGroup(DecodeQuad(v0, v1, SymbolValue(t[2]).value, SymbolValue(t[3]).value), DecodeB64(t[4..]).value);
      assert t == t[..4] + t[4..];
    }
  }

  lemma {:induction false} DecodeEncodeHex(b: seq<byte>)
    ensures DecodeHex(EncodeHex(b)) == Some(b)
  {
    hide HexDigit, HexValue;
    if |b| > 0 {
      HexRound(b[0] / 16);
      HexRound(b[0] % 16);
      DecodeEncodeHex(b[1..]);
      assert EncodeHex(b)[2..] == EncodeHex(b[1..]);
      assert b == [b[0]] + b[1..];
    }
  }

  lemma {:induction false} EncodeDecodeHex(t: string)
    requires DecodeHex(t).Some?
    ensures EncodeHex(DecodeHex(t).value) == t
  {
    hide HexDigit;
    if |t| >= 2 {
      EncodeDecodeHex(t[2..]);
      assert DecodeHex(t).value[1..] == DecodeHex(t[2..]).value;
      assert t == t[..2] + t[2..];
    }
  }

  /** A text decodes to bytes exactly when it is their one encoding. */
  lemma CodecBijection(t: string, b: seq<byte>, enc: Encoding)
    ensures DecodeText(t, enc) == Some(b) <==> t == EncodeText(b, enc)
  {
    hide DecodeB64, EncodeB64, DecodeHex, EncodeHex;
    match enc
    case B64 =>
      DecodeEncodeB64(b);
      if DecodeB64(t).Some? { EncodeDecodeB64(t); }
    case Hex =>
      DecodeEncodeHex(b);
      if DecodeHex(t).Some? { EncodeDecodeHex(t); }
  }

  lemma {:induction false} EncodedLength(b: seq<byte>, enc: Encoding)
    ensures |EncodeText(b, enc)| == EncodedLen(|b|, enc)
    decreases |b|
  {
    hide Symbol, HexDigit;
    match enc
    case B64 => if |b| > 2 { EncodedLength(b[3..], enc); }
    case Hex => if |b| > 0 { EncodedLength(b[1..], enc); }
  }

  /** Nothing a codec writes can be taken for a separator, and all of it is ASCII. */
  predicate PlainChar(c: char)
  {
    c as int < 0x80 && c != '.' && c != '~'
  }

  lemma SymbolsPlain()
    ensures forall i: nat {:trigger Symbol(i)} :: i < 64 ==> PlainChar(Symbol(i))
    ensures forall i: nat {:trigger HexDigit(i)} :: i < 16 ==> PlainChar(HexDigit(i))
  {
  }

  lemma {:induction false} EncodedPlain(b: seq<byte>, enc: Encoding)
    ensures forall c :: c in EncodeText(b, enc) ==> PlainChar(c)
    decreases |b|
  {
    hide Symbol, HexDigit;
    SymbolsPlain();
    match enc
    case B64 => if |b| > 2 { EncodedPlain(b[3..], enc); }
    case Hex => if |b| > 0 { EncodedPlain(b[1..], enc); }
  }
}
