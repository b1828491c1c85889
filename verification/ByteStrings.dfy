/** Byte strings: bytewise order, big-endian numbers and UTF-8 validity. */
module ByteStrings {
  import opened Basics

  // ---- bytewise lexicographic order (Rust's `Ord` on `Vec<u8>`) -------------------------------

  predicate LexLe(a: seq<byte>, b: seq<byte>)
  {
    |a| == 0 || (|b| > 0 && (a[0] < b[0] || (a[0] == b[0] && LexLe(a[1..], b[1..]))))
  }

  predicate LexLt(a: seq<byte>, b: seq<byte>)
  {
    a != b && LexLe(a, b)
  }

  lemma {:induction false} LexRefl(a: seq<byte>)
    ensures LexLe(a, a)
  {
    if |a| > 0 { LexRefl(a[1..]); }
  }

  lemma {:induction false} LexTotal(a: seq<byte>, b: seq<byte>)
    ensures LexLe(a, b) || LexLe(b, a)
  {
    if |a| > 0 && |b| > 0 { LexTotal(a[1..], b[1..]); }
  }

  lemma {:induction false} LexAntisym(a: seq<byte>, b: seq<byte>)
    requires LexLe(a, b) && LexLe(b, a)
    ensures a == b
  {
    if |a| > 0 && |b| > 0 {
      LexAntisym(a[1..], b[1..]);
      assert a == [a[0]] + a[1..];
      assert b == [b[0]] + b[1..];
    }
  }

  lemma {:induction false} LexTrans(a: seq<byte>, b: seq<byte>, c: seq<byte>)
    requires LexLe(a, b) && LexLe(b, c)
    ensures LexLe(a, c)
  {
    if |a| > 0 && a[0] == b[0] == c[0] { LexTrans(a[1..], b[1..], c[1..]); }
  }

  lemma LexLtTrans(a: seq<byte>, b: seq<byte>, c: seq<byte>)
    requires LexLt(a, b) && LexLt(b, c)
    ensures LexLt(a, c)
  {
    LexTrans(a, b, c);
    if a == c { LexAntisym(a, b); }
  }

  /** A common prefix never matters. */
  lemma {:induction false} LexPrefix(p: seq<byte>, a: seq<byte>, b: seq<byte>)
    ensures LexLe(p + a, p + b) == LexLe(a, b)
  {
    if |p| == 0 {
      assert p + a == a && p + b == b;
    } else {
      LexPrefix(p[1..], a, b);
      assert (p + a)[1..] == p[1..] + a;
      assert (p + b)[1..] == p[1..] + b;
    }
  }

  /** Two different strings of the same length are decided before anything appended to them. */
  lemma {:induction false} LexSameLength(a: seq<byte>, b: seq<byte>, x: seq<byte>, y: seq<byte>)
    requires |a| == |b| && a != b
    ensures LexLe(a + x, b + y) == LexLe(a, b)
    decreases |a|
  {
    assert a[0] == (a + x)[0] && b[0] == (b + y)[0];
    if a[0] == b[0] {
      assert a == [a[0]] + a[1..] && b == [b[0]] + b[1..];
      assert (a + x)[1..] == a[1..] + x;
      assert (b + y)[1..] == b[1..] + y;
      LexSameLength(a[1..], b[1..], x, y);
    }
  }

  // ---- big-endian numbers ---------------------------------------------------------------------

  function Pow256(w: nat): (r: nat)
    ensures r > 0
  {
    if w == 0 then 1 else 256 * Pow256(w - 1)
  }

  lemma Pow256Values()
    ensures Pow256(1) == 0x100 && Pow256(2) == 0x1_0000 && Pow256(4) == 0x1_0000_0000
    ensures Pow256(8) == 0x1_0000_0000_0000_0000
  {
    assert Pow256(3) == 256 * Pow256(2);
    assert Pow256(5) == 256 * Pow256(4);
    assert Pow256(7) == 256 * Pow256(6);
  }

  /** The low `w` bytes of `n`, most significant first. */
  function BigEndian(n: nat, w: nat): (r: seq<byte>)
    ensures |r| == w
  {
    if w == 0 then [] else BigEndian(n / 256, w - 1) + [n % 256]
  }

  function FromBigEndian(s: seq<byte>): (n: nat)
    ensures n < Pow256(|s|)
  {
    if |s| == 0 then 0 else 256 * FromBigEndian(s[..|s| - 1]) + s[|s| - 1]
  }

  lemma {:induction false} FromToBigEndian(n: nat, w: nat)
    requires n < Pow256(w)
    ensures FromBigEndian(BigEndian(n, w)) == n
  {
    if w > 0 {
      FromToBigEndian(n / 256, w - 1);
      assert BigEndian(n, w)[..w - 1] == BigEndian(n / 256, w - 1);
    }
  }

  lemma {:induction false} ToFromBigEndian(s: seq<byte>)
    ensures BigEndian(FromBigEndian(s), |s|) == s
  {
    if |s| > 0 {
      ToFromBigEndian(s[..|s| - 1]);
      assert s == s[..|s| - 1] + [s[|s| - 1]];
    }
  }

  /** At a fixed width, bytewise order is numeric order. */
  lemma {:induction false} BigEndianOrder(m: nat, n: nat, w: nat)
    requires m < n < Pow256(w)
    ensures LexLt(BigEndian(m, w), BigEndian(n, w))
  {
    var a, b := BigEndian(m / 256, w - 1), BigEndian(n / 256, w - 1);
    FromToBigEndian(m, w);
    FromToBigEndian(n, w);
    if m / 256 == n / 256 {
      LexPrefix(a, [m % 256], [n % 256]);
    } else {
      BigEndianOrder(m / 256, n / 256, w - 1);
      LexSameLength(a, b, [m % 256], [n % 256]);
    }
  }

  // ---- UTF-8 (RFC 3629 section 4) -------------------------------------------------------------

  predicate Tail(b: byte)
  {
    0x80 <= b <= 0xbf
  }

  /** Bytes taken by the scalar value at the front of `s`; 0 when there is no well-formed one. */
  function ScalarWidth(s: seq<byte>): (w: nat)
    ensures w <= 4 && w <= |s|
  {
    if |s| >= 1 && s[0] <= 0x7f then 1
    else if |s| >= 2 && 0xc2 <= s[0] <= 0xdf && Tail(s[1]) then 2
    else if |s| >= 3 && 0xe0 <= s[0] <= 0xef && Tail(s[1]) && Tail(s[2])
            && (s[0] == 0xe0 ==> s[1] >= 0xa0) && (s[0] == 0xed ==> s[1] <= 0x9f) then 3
    else if |s| >= 4 && 0xf0 <= s[0] <= 0xf4 && Tail(s[1]) && Tail(s[2]) && Tail(s[3])
            && (s[0] == 0xf0 ==> s[1] >= 0x90) && (s[0] == 0xf4 ==> s[1] <= 0x8f) then 4
    else 0
  }

  predicate IsUtf8(s: seq<byte>)
  {
    |s| == 0 || (ScalarWidth(s) > 0 && IsUtf8(s[ScalarWidth(s)..]))
  }

  /** A Rust `String`, as its UTF-8 bytes. */
  type Str = s: seq<byte> | IsUtf8(s)

  lemma {:induction false} Utf8Concat(a: seq<byte>, b: seq<byte>)
    requires IsUtf8(a) && IsUtf8(b)
    ensures IsUtf8(a + b)
    decreases |a|
  {
    if |a| == 0 {
      assert a + b == b;
    } else {
      var w := ScalarWidth(a);
      assert ScalarWidth(a + b) == w;
      assert (a + b)[w..] == a[w..] + b;
      Utf8Concat(a[w..], b);
    }
  }

  // ---- what UTF-8 is --------------------------------------------------------------------------

  /** A Unicode scalar value: any code point but the surrogates. */
  predicate IsScalar(n: nat)
  {
    n < 0xd800 || 0xe000 <= n < 0x11_0000
  }

  /** The UTF-8 octets of one scalar value (RFC 3629 section 3). */
  function EncodeScalar(n: nat): (r: seq<byte>)
    requires IsScalar(n)
  {
    if n < 0x80 then [n]
    else if n < 0x800 then [0xc0 + n / 0x40, 0x80 + n % 0x40]
    else if n < 0x1_0000 then [0xe0 + n / 0x40 / 0x40, 0x80 + n / 0x40 % 0x40, 0x80 + n % 0x40]
    else [0xf0 + n / 0x40 / 0x40 / 0x40, 0x80 + n / 0x40 / 0x40 % 0x40, 0x80 + n / 0x40 % 0x40, 0x80 + n % 0x40]
  }

  predicate AllScalars(ns: seq<nat>)
  {
    forall n :: n in ns ==> IsScalar(n)
  }

  function EncodeScalars(ns: seq<nat>): (r: seq<byte>)
    requires AllScalars(ns)
  {
    if |ns| == 0 then [] else EncodeScalar(ns[0]) + EncodeScalars(ns[1..])
  }

  lemma EncodedScalarIsWellFormed(n: nat, rest: seq<byte>)
    requires IsScalar(n)
    ensures ScalarWidth(EncodeScalar(n) + rest) == |EncodeScalar(n)|
  {
  }

  lemma ScalarNonEmpty(n: nat)
    requires IsScalar(n)
    ensures |EncodeScalar(n)| > 0
  {
  }

  lemma {:induction false} EncodedScalarsAreUtf8(ns: seq<nat>)
    requires AllScalars(ns)
    ensures IsUtf8(EncodeScalars(ns))
  {
    hide EncodeScalar, ScalarWidth, IsScalar;
    if |ns| > 0 {
      var first, rest := EncodeScalar(ns[0]), EncodeScalars(ns[1..]);
      EncodedScalarsAreUtf8(ns[1..]);
      EncodedScalarIsWellFormed(ns[0], rest);
      assert |first| > 0 by { ScalarNonEmpty(ns[0]); }
      assert (first + rest)[|first|..] == rest;
    }
  }

  lemma SixBits(high: nat, low: nat)
    requires low < 0x40
    ensures (high * 0x40 + low) / 0x40 == high && (high * 0x40 + low) % 0x40 == low
  {
  }

  lemma TwoOctets(a: byte, b: byte) returns (n: nat)
    requires 0xc2 <= a <= 0xdf && Tail(b)
    ensures IsScalar(n) && EncodeScalar(n) == [a, b]
  {
    var high, low := a as int - 0xc0, b as int - 0x80;
    n := high * 0x40 + low;
    SixBits(high, low);
  }

  lemma ThreeOctets(a: byte, b: byte, c: byte) returns (n: nat)
    requires 0xe0 <= a <= 0xef && Tail(b) && Tail(c) && (a == 0xe0 ==> b >= 0xa0) && (a == 0xed ==> b <= 0x9f)
    ensures IsScalar(n) && EncodeScalar(n) == [a, b, c]
  {
    var high, mid, low := a as int - 0xe0, b as int - 0x80, c as int - 0x80;
    var front := high * 0x40 + mid;
    n := front * 0x40 + low;
    SixBits(high, mid);
    SixBits(front, low);
  }

  lemma FourOctets(a: byte, b: byte, c: byte, d: byte) returns (n: nat)
    requires 0xf0 <= a <= 0xf4 && Tail(b) && Tail(c) && Tail(d)
    requires (a == 0xf0 ==> b >= 0x90) && (a == 0xf4 ==> b <= 0x8f)
    ensures IsScalar(n) && EncodeScalar(n) == [a, b, c, d]
  {
    var high, next, mid, low := a as int - 0xf0, b as int - 0x80, c as int - 0x80, d as int - 0x80;
    var two := high * 0x40 + next;
    var three := two * 0x40 + mid;
    n := three * 0x40 + low;
    SixBits(high, next);
    SixBits(two, mid);
    SixBits(three, low);
  }

  /** The scalar value at the front of well-formed bytes. */
  lemma FrontIsScalar(s: seq<byte>) returns (n: nat)
    requires ScalarWidth(s) > 0
    ensures IsScalar(n) && EncodeScalar(n) == s[..ScalarWidth(s)]
  {
    var w := ScalarWidth(s);
    if w == 1 {
      n := s[0];
      assert EncodeScalar(n) == [s[0]];
    } else {
      hide EncodeScalar, IsScalar;
      if w == 2 {
        n := TwoOctets(s[0], s[1]);
      } else if w == 3 {
        n := ThreeOctets(s[0], s[1], s[2]);
      } else {
        n := FourOctets(s[0], s[1], s[2], s[3]);
      }
    }
  }

  lemma {:induction false} Utf8IsScalars(s: seq<byte>) returns (ns: seq<nat>)
    requires IsUtf8(s)
    ensures AllScalars(ns) && EncodeScalars(ns) == s
    decreases |s|
  {
    hide EncodeScalar, ScalarWidth, IsScalar;
    if |s| == 0 {
      ns := [];
    } else {
      var n := FrontIsScalar(s);
      var rest := Utf8IsScalars(s[ScalarWidth(s)..]);
      ns := [n] + rest;
      assert ns[1..] == rest;
    }
  }

  /** The accepted byte strings are exactly the encodings of sequences of scalar values. */
  lemma Utf8Iff(s: seq<byte>)
    ensures IsUtf8(s) <==> exists ns :: AllScalars(ns) && EncodeScalars(ns) == s
  {
    hide IsUtf8, AllScalars, EncodeScalars;
    if IsUtf8(s) {
      var ns := Utf8IsScalars(s);
    }
    if exists ns :: AllScalars(ns) && EncodeScalars(ns) == s {
      var ns :| AllScalars(ns) && EncodeScalars(ns) == s;
      EncodedScalarsAreUtf8(ns);
    }
  }
}
