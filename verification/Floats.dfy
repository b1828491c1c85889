/**
 * IEEE 754 binary16 and binary32 numbers inside binary64, as bit patterns. The CBOR writer emits
 * the smallest of the three widths that round-trips a value; the reader widens all of them.
 */
module Floats {
  import opened Basics

  const FRACTION: nat := 0x10_0000_0000_0000  // 2^52, one past the largest binary64 fraction
  const SIGN: nat := 0x8000_0000_0000_0000

  predicate IsNan(bits: u64)
  {
    bits / FRACTION % 2048 == 2047 && bits % FRACTION != 0
  }

  function FromParts(negative: bool, exponent: nat, fraction: nat): (bits: u64)
    requires exponent < 2048 && fraction < FRACTION
    ensures bits / SIGN == (if negative then 1 else 0)
    ensures bits / FRACTION % 2048 == exponent
    ensures bits % FRACTION == fraction
  {
    (if negative then SIGN else 0) + exponent * FRACTION + fraction
  }

  function Pow2(k: nat): nat
  {
    if k == 0 then 1 else 2 * Pow2(k - 1)
  }

  lemma Pow2Add8(k: nat)
    ensures Pow2(k + 8) == 0x100 * Pow2(k)
  {
    assert Pow2(k + 8) == 2 * Pow2(k + 7);
    assert Pow2(k + 6) == 2 * Pow2(k + 5);
    assert Pow2(k + 4) == 2 * Pow2(k + 3);
    assert Pow2(k + 2) == 2 * Pow2(k + 1);
  }

  lemma Pow2Values()
    ensures Pow2(29) == 0x2000_0000 && Pow2(42) == 0x400_0000_0000 && Pow2(52) == FRACTION
  {
    assert Pow2(4) == 4 * Pow2(2) && Pow2(5) == 2 * Pow2(4);
    Pow2Add8(5); Pow2Add8(13); Pow2Add8(21);
    Pow2Add8(2); Pow2Add8(10); Pow2Add8(18); Pow2Add8(26); Pow2Add8(34);
    Pow2Add8(4); Pow2Add8(12); Pow2Add8(20); Pow2Add8(28); Pow2Add8(36); Pow2Add8(44);
  }

  /** Doubles a subnormal significand until its leading bit reaches position 52. */
  function Normalize(significand: nat, exponent: int, steps: nat): (r: (nat, int))
    requires steps <= 52 && Pow2(52 - steps) <= significand < 2 * FRACTION
    ensures FRACTION <= r.0 < 2 * FRACTION
    ensures exponent - steps <= r.1 <= exponent
    ensures significand < FRACTION ==> r.1 < exponent
    decreases steps
  {
    if significand >= FRACTION then (significand, exponent)
    else
      Pow2Values();
      Normalize(2 * significand, exponent - 1, steps - 1)
  }

  lemma Pow2Step(k: nat)
    ensures Pow2(k) == if k == 0 then 1 else 2 * Pow2(k - 1)
  {
  }

  lemma ThreeFactors(a: nat, b: nat, c: nat)
    ensures a * b * c == a * (b * c)
  {
  }

  /** Normalizing moves the binary point and leaves the number alone. */
  lemma {:induction false} NormalizeKeepsValue(significand: nat, exponent: int, steps: nat)
    requires steps <= 52 && Pow2(52 - steps) <= significand < 2 * FRACTION
    ensures var (s, e) := Normalize(significand, exponent, steps);
            e <= exponent && s == significand * Pow2(exponent - e)
    decreases steps
  {
    hide Pow2;
    Pow2Values();
    if significand < FRACTION {
      Pow2Step(53 - steps);
      var (s, e) := Normalize(2 * significand, exponent - 1, steps - 1);
      NormalizeKeepsValue(2 * significand, exponent - 1, steps - 1);
      Pow2Step(exponent - e);
      ThreeFactors(significand, 2, Pow2(exponent - 1 - e));
    } else {
      Pow2Step(0);
    }
  }

  lemma {:induction false} NormalizeInjective(a: nat, b: nat, exponent: int, steps: nat)
    requires steps <= 52 && Pow2(52 - steps) <= a < FRACTION && Pow2(52 - steps) <= b < FRACTION
    requires Normalize(a, exponent, steps) == Normalize(b, exponent, steps)
    ensures a == b
    decreases steps
  {
    Pow2Values();
    if 2 * a < FRACTION && 2 * b < FRACTION {
      NormalizeInjective(2 * a, 2 * b, exponent - 1, steps - 1);
    }
  }

  /**
   * The binary64 equal to a narrow float with sign, exponent field and fraction given: `top` is
   * the narrow format's all-ones exponent and `fraction` is already scaled to 52 bits. Infinities
   * and NaN payloads are carried over.
   */
  function Widen(negative: bool, exponent: nat, fraction: nat, top: nat, steps: nat): (bits: u64)
    requires exponent <= top && top < 256 && top % 2 == 1
    requires fraction < FRACTION
    requires steps <= 52 && (fraction != 0 ==> Pow2(52 - steps) <= fraction)
  {
    var rebias := 1023 - top / 2;
    if exponent == top then FromParts(negative, 2047, fraction)
    else if exponent > 0 then FromParts(negative, exponent + rebias, fraction)
    else if fraction == 0 then FromParts(negative, 0, 0)
    else
      var (significand, e) := Normalize(fraction, 1 + rebias, steps);
      FromParts(negative, e, significand - FRACTION)
  }

  lemma WidenInjective(n1: bool, e1: nat, f1: nat, n2: bool, e2: nat, f2: nat, top: nat, steps: nat)
    requires e1 <= top && e2 <= top && top < 256 && top % 2 == 1
    requires f1 < FRACTION && f2 < FRACTION
    requires steps <= 52
    requires (f1 != 0 ==> Pow2(52 - steps) <= f1) && (f2 != 0 ==> Pow2(52 - steps) <= f2)
    requires Widen(n1, e1, f1, top, steps) == Widen(n2, e2, f2, top, steps)
    ensures n1 == n2 && e1 == e2 && f1 == f2
  {
    if e1 == 0 && e2 == 0 && f1 != 0 && f2 != 0 {
      var rebias := 1023 - top / 2;
      assert Normalize(f1, 1 + rebias, steps) == Normalize(f2, 1 + rebias, steps);
      NormalizeInjective(f1, f2, 1 + rebias, steps);
    }
  }

  /** The three fields of an IEEE 754 bit pattern. */
  datatype Fields = Fields(sign: nat, exponent: nat, fraction: nat)

  function HalfFields(half: nat): (f: Fields)
    requires half < 0x1_0000
    ensures f.sign < 2 && f.exponent < 32 && f.fraction < 0x400
    ensures half == f.sign * 0x8000 + f.exponent * 0x400 + f.fraction
  {
    Fields(half / 0x8000, half / 0x400 % 32, half % 0x400)
  }

  function SingleFields(single: nat): (f: Fields)
    requires single < 0x1_0000_0000
    ensures f.sign < 2 && f.exponent < 256 && f.fraction < 0x80_0000
    ensures single == f.sign * 0x8000_0000 + f.exponent * 0x80_0000 + f.fraction
  {
    Fields(single / 0x8000_0000, single / 0x80_0000 % 256, single % 0x80_0000)
  }

  function WidenHalfFields(f: Fields): (bits: u64)
    requires f.sign < 2 && f.exponent < 32 && f.fraction < 0x400
  {
    Pow2Values();
    Widen(f.sign == 1, f.exponent, f.fraction * 0x400_0000_0000, 31, 10)
  }

  function WidenSingleFields(f: Fields): (bits: u64)
    requires f.sign < 2 && f.exponent < 256 && f.fraction < 0x80_0000
  {
    Pow2Values();
    Widen(f.sign == 1, f.exponent, f.fraction * 0x2000_0000, 255, 23)
  }

  lemma WidenHalfFieldsInjective(f: Fields, g: Fields)
    requires f.sign < 2 && f.exponent < 32 && f.fraction < 0x400
    requires g.sign < 2 && g.exponent < 32 && g.fraction < 0x400
    requires WidenHalfFields(f) == WidenHalfFields(g)
    ensures f == g
  {
    hide Widen, Pow2;
    Pow2Values();
    WidenInjective(f.sign == 1, f.exponent, f.fraction * 0x400_0000_0000,
                   g.sign == 1, g.exponent, g.fraction * 0x400_0000_0000, 31, 10);
  }

  lemma WidenSingleFieldsInjective(f: Fields, g: Fields)
    requires f.sign < 2 && f.exponent < 256 && f.fraction < 0x80_0000
    requires g.sign < 2 && g.exponent < 256 && g.fraction < 0x80_0000
    requires WidenSingleFields(f) == WidenSingleFields(g)
    ensures f == g
  {
    hide Widen, Pow2;
    Pow2Values();
    WidenInjective(f.sign == 1, f.exponent, f.fraction * 0x2000_0000,
                   g.sign == 1, g.exponent, g.fraction * 0x2000_0000, 255, 23);
  }

  /** binary16 bits as binary64 bits. */
  function WidenHalf(half: nat): (bits: u64)
    requires half < 0x1_0000
  {
    WidenHalfFields(HalfFields(half))
  }

  /** binary32 bits as binary64 bits. */
  function WidenSingle(single: nat): (bits: u64)
    requires single < 0x1_0000_0000
  {
    WidenSingleFields(SingleFields(single))
  }

  /** Widening a half loses nothing. */
  lemma WidenHalfInjective(a: nat, b: nat)
    requires a < 0x1_0000 && b < 0x1_0000
    requires WidenHalf(a) == WidenHalf(b)
    ensures a == b
  {
    WidenHalfFieldsInjective(HalfFields(a), HalfFields(b));
  }

  /** Widening a single loses nothing. */
  lemma WidenSingleInjective(a: nat, b: nat)
    requires a < 0x1_0000_0000 && b < 0x1_0000_0000
    requires WidenSingle(a) == WidenSingle(b)
    ensures a == b
  {
    WidenSingleFieldsInjective(SingleFields(a), SingleFields(b));
  }

  // ---- the number a pattern stands for --------------------------------------------------------

  lemma {:induction false} Pow2Add(a: nat, b: nat)
    ensures Pow2(a + b) == Pow2(a) * Pow2(b)
    decreases a
  {
    hide Pow2;
    Pow2Step(a);
    Pow2Step(a + b);
    if a > 0 {
      Pow2Add(a - 1, b);
      ThreeFactors(2, Pow2(a - 1), Pow2(b));
    }
  }

  /**
   * The magnitude of a finite float as a multiple of 2^-1074, the smallest binary64 number: `one`
   * is one past the format's largest fraction and 2^`unit` its smallest number.
   */
  function Magnitude(exponent: nat, fraction: nat, one: nat, unit: nat): (n: nat)
  {
    if exponent == 0 then fraction * Pow2(unit) else (one + fraction) * Pow2(unit + exponent - 1)
  }

  function DoubleMagnitude(bits: u64): (n: nat)
  {
    Magnitude(bits / FRACTION % 2048, bits % FRACTION, FRACTION, 0)
  }

  lemma MagnitudeScaled(exponent: nat, fraction: nat, one: nat, unit: nat, k: nat)
    ensures Magnitude(exponent, fraction * Pow2(k), one * Pow2(k), unit) == Magnitude(exponent, fraction, one, unit + k)
  {
    hide Pow2;
    var rest := if exponent == 0 then unit else unit + exponent - 1;
    Pow2Add(k, rest);
    ThreeFactors(fraction, Pow2(k), Pow2(rest));
    ThreeFactors(one + fraction, Pow2(k), Pow2(rest));
    assert one * Pow2(k) + fraction * Pow2(k) == (one + fraction) * Pow2(k);
  }

  lemma MagnitudeOfParts(negative: bool, exponent: nat, fraction: nat)
    requires exponent < 2048 && fraction < FRACTION
    ensures DoubleMagnitude(FromParts(negative, exponent, fraction)) == Magnitude(exponent, fraction, FRACTION, 0)
  {
    hide Magnitude, FromParts;
  }

  lemma SubnormalKeepsValue(fraction: nat, rebias: nat, steps: nat)
    requires steps <= 52 && steps <= rebias && Pow2(52 - steps) <= fraction < FRACTION
    ensures var (significand, e) := Normalize(fraction, 1 + rebias, steps);
            e > 0 && significand * Pow2(e - 1) == fraction * Pow2(rebias)
  {
    hide Pow2;
    var (significand, e) := Normalize(fraction, 1 + rebias, steps);
    NormalizeKeepsValue(fraction, 1 + rebias, steps);
    Pow2Add(1 + rebias - e, e - 1);
    ThreeFactors(fraction, Pow2(1 + rebias - e), Pow2(e - 1));
  }

  lemma WidenKeepsValue(negative: bool, exponent: nat, fraction: nat, top: nat, steps: nat)
    requires exponent < top && top < 256 && top % 2 == 1
    requires fraction < FRACTION
    requires steps <= 52 && (fraction != 0 ==> Pow2(52 - steps) <= fraction)
    ensures DoubleMagnitude(Widen(negative, exponent, fraction, top, steps))
         == Magnitude(exponent, fraction, FRACTION, 1023 - top / 2)
  {
    hide Pow2, Normalize, FromParts, DoubleMagnitude;
    var rebias := 1023 - top / 2;
    if exponent > 0 {
      MagnitudeOfParts(negative, exponent + rebias, fraction);
    } else if fraction == 0 {
      MagnitudeOfParts(negative, 0, 0);
    } else {
      var (significand, e) := Normalize(fraction, 1 + rebias, steps);
      SubnormalKeepsValue(fraction, rebias, steps);
      MagnitudeOfParts(negative, e, significand - FRACTION);
    }
  }

  /** Widening a half keeps its sign and its number exactly, infinities and NaN payloads included. */
  lemma WidenHalfKeepsValue(half: nat)
    requires half < 0x1_0000
    ensures var f := HalfFields(half);
            WidenHalf(half) / SIGN == f.sign
            && (f.exponent < 31 ==> DoubleMagnitude(WidenHalf(half)) == Magnitude(f.exponent, f.fraction, 0x400, 1050))
            && (f.exponent == 31 ==> WidenHalf(half) % SIGN == 2047 * FRACTION + f.fraction * 0x400_0000_0000)
  {
    hide Pow2, Normalize, Magnitude, DoubleMagnitude;
    var f := HalfFields(half);
    Pow2Values();
    if f.exponent < 31 {
      WidenKeepsValue(f.sign == 1, f.exponent, f.fraction * 0x400_0000_0000, 31, 10);
      MagnitudeScaled(f.exponent, f.fraction, 0x400, 1008, 42);
    }
  }

  /** Widening a single keeps its sign and its number exactly, infinities and NaN payloads included. */
  lemma WidenSingleKeepsValue(single: nat)
    requires single < 0x1_0000_0000
    ensures var f := SingleFields(single);
            WidenSingle(single) / SIGN == f.sign
            && (f.exponent < 255
                ==> DoubleMagnitude(WidenSingle(single)) == Magnitude(f.exponent, f.fraction, 0x80_0000, 925))
            && (f.exponent == 255 ==> WidenSingle(single) % SIGN == 2047 * FRACTION + f.fraction * 0x2000_0000)
  {
    hide Pow2, Normalize, Magnitude, DoubleMagnitude;
    var f := SingleFields(single);
    Pow2Values();
    if f.exponent < 255 {
      WidenKeepsValue(f.sign == 1, f.exponent, f.fraction * 0x2000_0000, 255, 23);
      MagnitudeScaled(f.exponent, f.fraction, 0x80_0000, 896, 29);
    }
  }

  lemma WidenHalfNan(f: Fields)
    requires f.sign < 2 && f.exponent < 32 && f.fraction < 0x400
    ensures IsNan(WidenHalfFields(f)) <==> f.exponent == 31 && f.fraction != 0
  {
  }

  lemma WidenSingleNan(f: Fields)
    requires f.sign < 2 && f.exponent < 256 && f.fraction < 0x80_0000
    ensures IsNan(WidenSingleFields(f)) <==> f.exponent == 255 && f.fraction != 0
  {
  }

  /** The NaN patterns are those beyond infinity, whatever the sign. */
  lemma NanIsBeyondInfinity(bits: u64)
    ensures IsNan(bits) <==> bits % SIGN > 0x7ff0_0000_0000_0000
  {
    var high, low := bits / FRACTION, bits % FRACTION;
    assert bits == high * FRACTION + low;
    assert bits % SIGN == high % 2048 * FRACTION + low;
  }

  /** Widening keeps NaN apart from numbers. */
  lemma WidenNan(half: nat, single: nat)
    requires half < 0x1_0000 && single < 0x1_0000_0000
    ensures IsNan(WidenHalf(half)) <==> HalfFields(half).exponent == 31 && HalfFields(half).fraction != 0
    ensures IsNan(WidenSingle(single)) <==> SingleFields(single).exponent == 255 && SingleFields(single).fraction != 0
  {
    WidenHalfNan(HalfFields(half));
    WidenSingleNan(SingleFields(single));
  }

  predicate FitsHalf(bits: u64)
  {
    exists half: nat :: half < 0x1_0000 && WidenHalf(half) == bits
  }

  predicate FitsSingle(bits: u64)
  {
    exists single: nat :: single < 0x1_0000_0000 && WidenSingle(single) == bits
  }

  lemma OnlyHalf(bits: u64)
    ensures forall a: nat, b: nat {:trigger WidenHalf(a), WidenHalf(b)} ::
              a < 0x1_0000 && b < 0x1_0000 && WidenHalf(a) == bits && WidenHalf(b) == bits ==> a == b
  {
    forall a: nat, b: nat | a < 0x1_0000 && b < 0x1_0000 && WidenHalf(a) == bits && WidenHalf(b) == bits
      ensures a == b
    {
      WidenHalfInjective(a, b);
    }
  }

  lemma OnlySingle(bits: u64)
    ensures forall a: nat, b: nat {:trigger WidenSingle(a), WidenSingle(b)} ::
              a < 0x1_0000_0000 && b < 0x1_0000_0000 && WidenSingle(a) == bits && WidenSingle(b) == bits ==> a == b
  {
    forall a: nat, b: nat | a < 0x1_0000_0000 && b < 0x1_0000_0000 && WidenSingle(a) == bits && WidenSingle(b) == bits
      ensures a == b
    {
      WidenSingleInjective(a, b);
    }
  }

  function ToHalf(bits: u64): (half: nat)
    requires FitsHalf(bits)
    ensures half < 0x1_0000 && WidenHalf(half) == bits
  {
    OnlyHalf(bits);
    var half: nat :| half < 0x1_0000 && WidenHalf(half) == bits;
    half
  }

  function ToSingle(bits: u64): (single: nat)
    requires FitsSingle(bits)
    ensures single < 0x1_0000_0000 && WidenSingle(single) == bits
  {
    OnlySingle(bits);
    var single: nat :| single < 0x1_0000_0000 && WidenSingle(single) == bits;
    single
  }
}
