/** The token grammar, `[text ALG] SEP [ALG text]`, and the two halves carved out of a token. */
module Token {
  import opened Basics
  import opened Types
  import opened Alphabets
  import opened TextBuffer

  datatype Half = Half(algCode: char, text: string)

  datatype Parsed = Parsed(
    encoding: Encoding, separator: char, manifest: Option<Half>, mandate: Option<Half>, mandatePart: string)

  datatype ParseError = Empty | SeparatorCount | DegenerateHalf | BothAbsent | BadAlgChar

  predicate IsAlgChar(c: char)
  {
    '0' <= c <= '9' || 'a' <= c <= 'z'
  }

  predicate IsSeparator(c: char)
  {
    c == '.' || c == '~'
  }

  function SepCount(s: string): (n: nat)
  {
    if |s| == 0 then 0 else SepCount(s[..|s| - 1]) + (if IsSeparator(s[|s| - 1]) then 1 else 0)
  }

  function LastSep(s: string): (i: nat)
    requires SepCount(s) > 0
    ensures i < |s| && IsSeparator(s[i])
  {
    if IsSeparator(s[|s| - 1]) then |s| - 1 else LastSep(s[..|s| - 1])
  }

  /** Ciphertext, then its algorithm code: the last character. */
  function ReadManifestPart(before: string): (r: Result<Option<Half>, ParseError>)
  {
    if |before| == 0 then Ok(None)
    else if |before| == 1 then Err(DegenerateHalf)
    else if !IsAlgChar(before[|before| - 1]) then Err(BadAlgChar)
    else Ok(Some(Half(before[|before| - 1], before[..|before| - 1])))
  }

  /** Algorithm code, the first character, then ciphertext. */
  function ReadMandatePart(after: string): (r: Result<Option<Half>, ParseError>)
  {
    if |after| == 0 then Ok(None)
    else if |after| == 1 then Err(DegenerateHalf)
    else if !IsAlgChar(after[0]) then Err(BadAlgChar)
    else Ok(Some(Half(after[0], after[1..])))
  }

  function SplitAt(input: string, i: nat): (r: Result<Parsed, ParseError>)
    requires i < |input| && IsSeparator(input[i])
  {
    match ReadManifestPart(input[..i])
    case Err(e) => Err(e)
    case Ok(manifest) =>
      match ReadMandatePart(input[i + 1..])
      case Err(e) => Err(e)
      case Ok(mandate) =>
        if manifest.None? && mandate.None? then Err(BothAbsent)
        else Ok(Parsed(Encoding.FromSeparator(input[i]).value, input[i], manifest, mandate, input[i + 1..]))
  }

  function ParseToken(input: string): (r: Result<Parsed, ParseError>)
  {
    if |input| == 0 then Err(Empty)
    else if SepCount(input) != 1 then Err(SeparatorCount)
    else SplitAt(input, LastSep(input))
  }

  /** The scanning loop, then slicing by index. */
  method Parse(input: string) returns (r: Result<Parsed, ParseError>)
    ensures r == ParseToken(input)
  {
    if |input| == 0 {
      return Err(Empty);
    }
    var sepIndex: Option<nat>, sepChar, sepCount := None, '\0', 0;
    for i := 0 to |input|
      invariant sepCount == SepCount(input[..i])
      invariant sepCount > 0 ==> sepIndex == Some(LastSep(input[..i])) && sepChar == input[sepIndex.value]
    {
      assert input[..i + 1][..i] == input[..i];
      if input[i] == '.' || input[i] == '~' {
        sepCount := sepCount + 1;
        sepIndex := Some(i);
        sepChar := input[i];
      }
    }
    assert input[..|input|] == input;
    if sepCount != 1 {
      return Err(SeparatorCount);
    }
    var at := sepIndex.value;
    var encoding := Encoding.FromSeparator(sepChar).value;
    var before, after := input[..at], input[at + 1..];
    var manifest := None;
    if |before| > 0 {
      var code, text := before[|before| - 1], before[..|before| - 1];
      if |text| == 0 { return Err(DegenerateHalf); }
      if !IsAlgChar(code) { return Err(BadAlgChar); }
      manifest := Some(Half(code, text));
    }
    var mandate := None;
    if |after| > 0 {
      var code, text := after[0], after[1..];
      if |text| == 0 { return Err(DegenerateHalf); }
      if !IsAlgChar(code) { return Err(BadAlgChar); }
      mandate := Some(Half(code, text));
    }
    if manifest.None? && mandate.None? {
      return Err(BothAbsent);
    }
    return Ok(Parsed(encoding, sepChar, manifest, mandate, after));
  }

  // ---- parse and print are inverse ------------------------------------------------------------

  function Print(p: Parsed): (t: string)
  {
    (if p.manifest.Some? then p.manifest.value.text + [p.manifest.value.algCode] else "")
    + [p.separator]
    + (if p.mandate.Some? then [p.mandate.value.algCode] + p.mandate.value.text else "")
  }

  ghost predicate NoSeparator(s: string)
  {
    forall c :: c in s ==> !IsSeparator(c)
  }

  /** The characters an algorithm code may be, registered or not. */
  predicate IsCode(c: char)
  {
    c in "0123456789" || c in "abcdefghijklmnopqrstuvwxyz"
  }

  lemma CodeClass(c: char)
    ensures IsAlgChar(c) <==> IsCode(c)
  {
    IsDigit(c);
    IsLowerCase(c);
  }

  ghost predicate WellFormedHalf(h: Half)
  {
    |h.text| > 0 && IsCode(h.algCode) && NoSeparator(h.text)
  }

  ghost predicate WellFormed(p: Parsed)
  {
    && Encoding.FromSeparator(p.separator) == Some(p.encoding)
    && (p.manifest.Some? || p.mandate.Some?)
    && (p.manifest.Some? ==> WellFormedHalf(p.manifest.value))
    && (p.mandate.Some? ==> WellFormedHalf(p.mandate.value))
    && p.mandatePart == (if p.mandate.Some? then [p.mandate.value.algCode] + p.mandate.value.text else "")
  }

  lemma {:induction false} NoSepCount(s: string)
    ensures SepCount(s) == 0 <==> NoSeparator(s)
  {
    if |s| > 0 {
      NoSepCount(s[..|s| - 1]);
      assert s == s[..|s| - 1] + [s[|s| - 1]];
    }
  }

  lemma {:induction false} OnlySeparator(s: string)
    requires SepCount(s) == 1
    ensures NoSeparator(s[..LastSep(s)]) && NoSeparator(s[LastSep(s) + 1..])
  {
    var front := s[..|s| - 1];
    if IsSeparator(s[|s| - 1]) {
      NoSepCount(front);
    } else {
      OnlySeparator(front);
      assert s[..LastSep(s)] == front[..LastSep(s)];
      assert s[LastSep(s) + 1..] == front[LastSep(s) + 1..] + [s[|s| - 1]];
    }
  }

  lemma {:induction false} SeparatorFound(a: string, c: char, b: string)
    requires NoSeparator(a) && IsSeparator(c) && NoSeparator(b)
    ensures SepCount(a + [c] + b) == 1 && LastSep(a + [c] + b) == |a|
    decreases |b|
  {
    var s := a + [c] + b;
    if |b| == 0 {
      assert s[..|s| - 1] == a;
      NoSepCount(a);
    } else {
      assert s[..|s| - 1] == a + [c] + b[..|b| - 1];
      assert b[|b| - 1] in b;
      SeparatorFound(a, c, b[..|b| - 1]);
    }
  }

  lemma ParsedIsWellFormed(s: string)
    requires ParseToken(s).Ok?
    ensures WellFormed(ParseToken(s).value) && Print(ParseToken(s).value) == s
  {
    hide SepCount, LastSep, IsAlgChar, IsCode;
    var i := LastSep(s);
    OnlySeparator(s);
    var before, after := s[..i], s[i + 1..];
    assert s == before + [s[i]] + after;
    if |before| > 0 {
      assert before == before[..|before| - 1] + [before[|before| - 1]];
      CodeClass(before[|before| - 1]);
    }
    if |after| > 0 {
      assert after == [after[0]] + after[1..];
      CodeClass(after[0]);
    }
  }

  lemma PrintedParses(p: Parsed)
    requires WellFormed(p)
    ensures ParseToken(Print(p)) == Ok(p)
  {
    hide SepCount, LastSep, IsCode;
    if p.manifest.Some? { CodeClass(p.manifest.value.algCode); }
    if p.mandate.Some? { CodeClass(p.mandate.value.algCode); }
    var before := if p.manifest.Some? then p.manifest.value.text + [p.manifest.value.algCode] else "";
    var s := Print(p);
    assert s == before + [p.separator] + p.mandatePart;
    assert NoSeparator(before) && NoSeparator(p.mandatePart);
    SeparatorFound(before, p.separator, p.mandatePart);
    assert s[..|before|] == before && s[|before| + 1..] == p.mandatePart;
  }

  /** Parsing accepts exactly the printed well-formed tokens, each as what was printed. */
  lemma ParseIsInverseOfPrint(s: string, p: Parsed)
    ensures ParseToken(s) == Ok(p) <==> WellFormed(p) && s == Print(p)
  {
    hide ParseToken, WellFormed, Print;
    if ParseToken(s) == Ok(p) { ParsedIsWellFormed(s); }
    if WellFormed(p) && s == Print(p) { PrintedParses(p); }
  }

  // ---- the grammar's errors -------------------------------------------------------------------

  lemma {:induction false} SepCountConcat(a: string, b: string)
    ensures SepCount(a + b) == SepCount(a) + SepCount(b)
    decreases |b|
  {
    if |b| == 0 {
      assert a + b == a;
    } else {
      assert (a + b)[..|a + b| - 1] == a + b[..|b| - 1];
      SepCountConcat(a, b[..|b| - 1]);
    }
  }

  /** Text, then a code; or nothing. */
  predicate IsManifestPart(before: string)
  {
    |before| == 0 || (|before| > 1 && IsCode(before[|before| - 1]))
  }

  /** A code, then text; or nothing. */
  predicate IsMandatePart(after: string)
  {
    |after| == 0 || (|after| > 1 && IsCode(after[0]))
  }

  lemma PartsDecide(before: string, after: string)
    ensures ReadManifestPart(before).Ok? <==> IsManifestPart(before)
    ensures ReadMandatePart(after).Ok? <==> IsMandatePart(after)
    ensures ReadManifestPart(before).Ok? ==> (ReadManifestPart(before).value.None? <==> |before| == 0)
    ensures ReadMandatePart(after).Ok? ==> (ReadMandatePart(after).value.None? <==> |after| == 0)
    ensures ReadManifestPart(before).Err?
        ==> ReadManifestPart(before) == Err(if |before| == 1 then DegenerateHalf else BadAlgChar)
    ensures ReadMandatePart(after).Err?
        ==> ReadMandatePart(after) == Err(if |after| == 1 then DegenerateHalf else BadAlgChar)
  {
    hide IsCode, IsAlgChar;
    if |before| > 1 { CodeClass(before[|before| - 1]); }
    if |after| > 1 { CodeClass(after[0]); }
  }

  /** The answer for every text with one separator: the manifest part is judged first. */
  lemma PartsParse(before: string, sep: char, after: string)
    requires NoSeparator(before) && IsSeparator(sep) && NoSeparator(after)
    ensures var r := ParseToken(before + [sep] + after);
            && (r.Ok? <==> IsManifestPart(before) && IsMandatePart(after) && |before| + |after| > 0)
            && (r == Err(DegenerateHalf) <==> |before| == 1 || (IsManifestPart(before) && |after| == 1))
            && (r == Err(BadAlgChar)
                <==> (|before| > 1 && !IsManifestPart(before))
                     || (IsManifestPart(before) && |after| > 1 && !IsMandatePart(after)))
            && (r == Err(BothAbsent) <==> |before| == 0 && |after| == 0)
            && (r.Ok? ==> Encoding.FromSeparator(sep) == Some(r.value.encoding))
            && (r.Ok? ==> r.value.mandate == if |after| == 0 then None else Some(Half(after[0], after[1..])))
            && (r.Ok?
                ==> r.value.manifest
                    == if |before| == 0 then None else Some(Half(before[|before| - 1], before[..|before| - 1])))
  {
    hide SepCount, LastSep, IsManifestPart, IsMandatePart;
    PartsDecide(before, after);
    SeparatorFound(before, sep, after);
    var t := before + [sep] + after;
    assert t[..|before|] == before && t[|before|] == sep && t[|before| + 1..] == after;
  }

  /** Separators are counted before anything is looked at. */
  lemma SeparatorsAreCountedFirst(input: string)
    ensures ParseToken(input) == Err(Empty) <==> |input| == 0
    ensures ParseToken(input) == Err(SeparatorCount) <==> |input| > 0 && SepCount(input) != 1
  {
    hide SepCount, LastSep, IsAlgChar;
  }

  ghost predicate SplitsInto(input: string, before: string, sep: char, after: string)
  {
    NoSeparator(before) && IsSeparator(sep) && NoSeparator(after) && input == before + [sep] + after
  }

  /** A count of one means one separator, with none on either side. */
  lemma OneSeparatorIff(input: string)
    ensures SepCount(input) == 1 <==> exists before, sep, after :: SplitsInto(input, before, sep, after)
  {
    hide SepCount, LastSep, NoSeparator;
    if SepCount(input) == 1 {
      OnlySeparator(input);
      var i := LastSep(input);
      assert input == input[..i] + [input[i]] + input[i + 1..];
      assert SplitsInto(input, input[..i], input[i], input[i + 1..]);
    }
    if exists before, sep, after :: SplitsInto(input, before, sep, after) {
      var before, sep, after :| SplitsInto(input, before, sep, after);
      SeparatorFound(before, sep, after);
    }
  }

  lemma CodeIsNoSeparator(code: char)
    ensures IsCode(code) ==> !IsSeparator(code)
  {
    CodeClass(code);
  }

  lemma TwoSeparators(a: string, c: char, b: string, d: char, e: string)
    requires IsSeparator(c) && IsSeparator(d)
    ensures ParseToken(a + [c] + b + [d] + e) == Err(SeparatorCount)
  {
    SepCountConcat(a + [c] + b + [d], e);
    SepCountConcat(a + [c] + b, [d]);
    SepCountConcat(a + [c], b);
    SepCountConcat(a, [c]);
    assert SepCount([c]) == SepCount([c][..0]) + 1 && SepCount([d]) == SepCount([d][..0]) + 1;
  }

  /** The code of a mandate may be any digit or lowercase letter, and nothing else. */
  lemma MandateCodeIff(sep: char, code: char, text: string)
    requires IsSeparator(sep) && NoSeparator(text) && |text| > 0
    ensures ParseToken([sep] + ([code] + text)).Ok? <==> IsCode(code)
  {
    hide ParseToken, SepCount;
    CodeIsNoSeparator(code);
    if IsSeparator(code) {
      TwoSeparators("", sep, "", code, text);
      assert "" + [sep] + "" + [code] + text == [sep] + ([code] + text);
    } else {
      PartsParse("", sep, [code] + text);
      assert "" + [sep] + ([code] + text) == [sep] + ([code] + text);
    }
  }

  /** And so may the code of a manifest. */
  lemma ManifestCodeIff(text: string, code: char, sep: char)
    requires IsSeparator(sep) && NoSeparator(text) && |text| > 0
    ensures ParseToken(text + [code] + [sep]).Ok? <==> IsCode(code)
  {
    hide ParseToken, SepCount;
    CodeIsNoSeparator(code);
    if IsSeparator(code) {
      TwoSeparators(text, code, "", sep, "");
      assert text + [code] + "" + [sep] + "" == text + [code] + [sep];
    } else {
      PartsParse(text + [code], sep, "");
      assert text + [code] + [sep] + "" == text + [code] + [sep];
    }
  }

  // ---- carving --------------------------------------------------------------------------------

  function CarveMandate(token: string): (r: Option<string>)
  {
    match ParseToken(token)
    case Err(_) => None
    case Ok(p) => if p.mandate.None? then None else Some([p.separator] + p.mandatePart)
  }

  function CarveManifest(token: string): (r: Option<string>)
  {
    match ParseToken(token)
    case Err(_) => None
    case Ok(p) =>
      if p.manifest.None? then None
      else Some(p.manifest.value.text + [p.manifest.value.algCode] + [p.separator])
  }

  method MandateHalf(token: string) returns (r: Option<string>)
    ensures r == CarveMandate(token)
  {
    var parsed := Parse(token);
    if parsed.Err? || parsed.value.mandate.None? {
      return None;
    }
    var out := new Buffer.WithCapacity(1 + |parsed.value.mandatePart|);
    out.Push(parsed.value.separator);
    out.PushStr(parsed.value.mandatePart);
    assert out.text == [parsed.value.separator] + parsed.value.mandatePart;
    return Some(out.text);
  }

  method ManifestHalf(token: string) returns (r: Option<string>)
    ensures r == CarveManifest(token)
  {
    var parsed := Parse(token);
    if parsed.Err? || parsed.value.manifest.None? {
      return None;
    }
    var half := parsed.value.manifest.value;
    var out := new Buffer.WithCapacity(|half.text| + 1 + 1);
    out.PushStr(half.text);
    out.Push(half.algCode);
    out.Push(parsed.value.separator);
    assert out.text == half.text + [half.algCode] + [parsed.value.separator];
    return Some(out.text);
  }

  /** A carved mandate is a token with the same mandate and nothing else. */
  lemma CarvedMandateParses(token: string)
    requires CarveMandate(token).Some?
    ensures ParseToken(token).Ok?
    ensures ParseToken(CarveMandate(token).value) == Ok(ParseToken(token).value.(manifest := None))
  {
    hide ParseToken;
    var p := ParseToken(token).value;
    ParseIsInverseOfPrint(token, p);
    ParseIsInverseOfPrint(CarveMandate(token).value, p.(manifest := None));
    assert Print(p.(manifest := None)) == [p.separator] + p.mandatePart;
  }

  /** A carved manifest is a token with the same manifest and nothing else. */
  lemma CarvedManifestParses(token: string)
    requires CarveManifest(token).Some?
    ensures ParseToken(token).Ok?
    ensures ParseToken(CarveManifest(token).value) == Ok(ParseToken(token).value.(mandate := None, mandatePart := ""))
  {
    hide ParseToken;
    var p := ParseToken(token).value;
    var q := p.(mandate := None, mandatePart := "");
    ParseIsInverseOfPrint(token, p);
    ParseIsInverseOfPrint(CarveManifest(token).value, q);
    assert Print(q) == CarveManifest(token).value;
  }

  lemma CarvingIsIdempotent(token: string)
    ensures CarveMandate(token).Some? ==> CarveMandate(CarveMandate(token).value) == CarveMandate(token)
    ensures CarveManifest(token).Some? ==> CarveManifest(CarveManifest(token).value) == CarveManifest(token)
  {
    hide ParseToken;
    if CarveMandate(token).Some? { CarvedMandateParses(token); }
    if CarveManifest(token).Some? { CarvedManifestParses(token); }
  }

  /** One token's carved manifest in front of another's carved mandate is a token of those two halves. */
  lemma SpliceParses(a: string, b: string)
    requires CarveManifest(a).Some? && CarveMandate(b).Some?
    requires ParseToken(a).value.separator == ParseToken(b).value.separator
    ensures var pa, pb := ParseToken(a).value, ParseToken(b).value;
            ParseToken(CarveManifest(a).value + CarveMandate(b).value[1..]) == Ok(pb.(manifest := pa.manifest))
  {
    hide ParseToken;
    var pa, pb := ParseToken(a).value, ParseToken(b).value;
    var q := pb.(manifest := pa.manifest);
    ParseIsInverseOfPrint(a, pa);
    ParseIsInverseOfPrint(b, pb);
    ParseIsInverseOfPrint(CarveManifest(a).value + CarveMandate(b).value[1..], q);
    assert CarveMandate(b).value[1..] == pb.mandatePart;
    assert Print(q) == CarveManifest(a).value + pb.mandatePart;
  }
}
