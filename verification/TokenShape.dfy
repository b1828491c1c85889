/** What the verifier answers to a token of each shape, before any key is tried. */
module TokenShape {
  import opened Basics
  import opened Types
  import opened Aead
  import opened Token
  import opened HalfPlaintext
  import opened Verify

  /** Every verifier terminal gives this reason. */
  ghost predicate Rejects(c: Cipher, s: Settings, clock: Option<u64>, token: string, reason: Reason)
  {
    && Authenticate(c, s, token) == Err(reason)
    && Clauses(c, s, clock, token) == Err(reason)
    && ClausesUnchecked(c, s, token) == Err(reason)
  }

  /** Every verifier terminal answers both tokens alike. */
  ghost predicate AnswersAlike(c: Cipher, s: Settings, clock: Option<u64>, a: string, b: string)
  {
    && Authenticate(c, s, a) == Authenticate(c, s, b)
    && Clauses(c, s, clock, a) == Clauses(c, s, clock, b)
    && ClausesUnchecked(c, s, a) == ClausesUnchecked(c, s, b)
  }

  lemma UnsealedIsRejected(c: Cipher, s: Settings, clock: Option<u64>, token: string, reason: Reason)
    requires SealedMandate(s.maxDecodedLen, token) == Err(reason)
    ensures Rejects(c, s, clock, token, reason)
  {
    hide SealedMandate;
  }

  lemma SealedAlikeAnswersAlike(c: Cipher, s: Settings, clock: Option<u64>, a: string, b: string)
    requires SealedMandate(s.maxDecodedLen, a) == SealedMandate(s.maxDecodedLen, b)
    ensures AnswersAlike(c, s, clock, a, b)
  {
    hide SealedMandate, TrialOpen, FromMandatePlaintext;
  }

  /** No separator, or more than one. */
  lemma SeparatorCountMatters(c: Cipher, s: Settings, clock: Option<u64>, token: string)
    ensures SepCount(token) != 1 ==> Rejects(c, s, clock, token, Malformed)
  {
    hide ParseToken, SepCount, Rejects;
    if SepCount(token) != 1 {
      SeparatorsAreCountedFirst(token);
      UnsealedIsRejected(c, s, clock, token, Malformed);
    }
  }

  // ---- the manifest part ----------------------------------------------------------------------

  lemma SealedParts(max: u64, before: string, sep: char, after: string)
    requires NoSeparator(before) && IsSeparator(sep) && NoSeparator(after)
    ensures SealedMandate(max, before + [sep] + after)
         == if !IsManifestPart(before) then Err(Malformed)
            else if |before| > 0 && |after| == 0 then Err(EmptyMandate)
            else SealedMandate(max, [sep] + after)
  {
    hide ParseToken, DecodeHalf, IsCode;
    PartsParse(before, sep, after);
    PartsParse("", sep, after);
    assert "" + [sep] + after == [sep] + after;
    if |before| == 0 { assert before == ""; }
  }

  /**
   * The verifier's answer to any token with one separator: a manifest part that is no half spoils
   * the token, one in front of nothing only changes the reason, and any other changes nothing.
   */
  lemma ManifestPartDecides(c: Cipher, s: Settings, clock: Option<u64>, before: string, sep: char, after: string)
    requires NoSeparator(before) && IsSeparator(sep) && NoSeparator(after)
    ensures var whole := before + [sep] + after;
            if !IsManifestPart(before) then Rejects(c, s, clock, whole, Malformed)
            else if |before| > 0 && |after| == 0 then Rejects(c, s, clock, whole, EmptyMandate)
            else AnswersAlike(c, s, clock, whole, [sep] + after)
  {
    hide SealedMandate, Rejects, AnswersAlike, IsManifestPart;
    SealedParts(s.maxDecodedLen, before, sep, after);
    var whole := before + [sep] + after;
    if !IsManifestPart(before) {
      UnsealedIsRejected(c, s, clock, whole, Malformed);
    } else if |before| > 0 && |after| == 0 {
      UnsealedIsRejected(c, s, clock, whole, EmptyMandate);
    } else {
      SealedAlikeAnswersAlike(c, s, clock, whole, [sep] + after);
    }
  }

  /** When a manifest part leaves an answer alone, given whether the mandate's own answer is `Malformed`. */
  predicate ManifestPartIsInert(before: string, after: string, malformedAlone: bool)
  {
    if !IsManifestPart(before) then malformedAlone else |before| > 0 ==> |after| > 0
  }

  lemma LoneSeparator(c: Cipher, s: Settings, clock: Option<u64>, sep: char)
    requires IsSeparator(sep)
    ensures Rejects(c, s, clock, [sep] + "", Malformed)
  {
    hide ParseToken, Rejects, IsCode;
    PartsParse("", sep, "");
    assert "" + [sep] + "" == [sep] + "";
    UnsealedIsRejected(c, s, clock, [sep] + "", Malformed);
  }

  /** Exactly when the code keeps the promise that the manifest has no part in verifying a mandate. */
  lemma ManifestIsIgnoredIff(
    c: Cipher, s: Settings, clock: Option<u64>, before: string, sep: char, after: string)
    requires NoSeparator(before) && IsSeparator(sep) && NoSeparator(after)
    ensures var whole, alone := before + [sep] + after, [sep] + after;
            && (Authenticate(c, s, whole) == Authenticate(c, s, alone)
                <==> ManifestPartIsInert(before, after, Authenticate(c, s, alone) == Err(Malformed)))
            && (Clauses(c, s, clock, whole) == Clauses(c, s, clock, alone)
                <==> ManifestPartIsInert(before, after, Clauses(c, s, clock, alone) == Err(Malformed)))
            && (ClausesUnchecked(c, s, whole) == ClausesUnchecked(c, s, alone)
                <==> ManifestPartIsInert(before, after, ClausesUnchecked(c, s, alone) == Err(Malformed)))
  {
    hide IsManifestPart, Authenticate, Clauses, ClausesUnchecked, NoSeparator;
    ManifestPartDecides(c, s, clock, before, sep, after);
    if |after| == 0 {
      LoneSeparator(c, s, clock, sep);
      assert after == "";
    }
  }

  lemma MandatePartPlain(p: Parsed)
    requires WellFormed(p)
    ensures NoSeparator(p.mandatePart) && IsSeparator(p.separator)
  {
    hide IsCode;
    if p.mandate.Some? { CodeIsNoSeparator(p.mandate.value.algCode); }
  }

  /** One stray character in front of any mandate-only token, accepted or not, makes it malformed. */
  lemma StrayCharacterSpoils(c: Cipher, s: Settings, clock: Option<u64>, token: string)
    requires CarveMandate(token) == Some(token)
    ensures Rejects(c, s, clock, "x" + token, Malformed)
  {
    hide ParseToken, Rejects, AnswersAlike, IsCode;
    var p := ParseToken(token).value;
    ParsedIsWellFormed(token);
    assert NoSeparator(p.mandatePart) by { MandatePartPlain(p); }
    assert "x" + ([p.separator] + p.mandatePart) == "x" + [p.separator] + p.mandatePart;
    ManifestPartDecides(c, s, clock, "x", p.separator, p.mandatePart);
  }

  // ---- the mandate's code ---------------------------------------------------------------------

  /** A code that is no digit or lowercase letter is malformed; one that is, but not 0 or 1, is unsupported. */
  lemma UnknownCodeAnswers(c: Cipher, s: Settings, clock: Option<u64>, sep: char, code: char, text: string)
    requires IsSeparator(sep) && NoSeparator(text) && |text| > 0
    ensures var token := [sep] + ([code] + text);
            && (!IsCode(code) ==> Rejects(c, s, clock, token, Malformed))
            && (IsCode(code) && code != '0' && code != '1' ==> Rejects(c, s, clock, token, Unsupported))
  {
    hide ParseToken, Rejects, IsCode;
    var token := [sep] + ([code] + text);
    MandateCodeIff(sep, code, text);
    if !IsCode(code) {
      UnsealedIsRejected(c, s, clock, token, Malformed);
    } else if code != '0' && code != '1' {
      CodeIsNoSeparator(code);
      PartsParse("", sep, [code] + text);
      assert "" + [sep] + ([code] + text) == token;
      UnsealedIsRejected(c, s, clock, token, Unsupported);
    }
  }

  /** Code 0 is AES-SIV and 1 AES-GCM-SIV, a dot means base64url and a tilde hexadecimal. */
  lemma KnownCodeAnswers(c: Cipher, s: Settings, alg: Alg, enc: Encoding, text: string)
    requires NoSeparator(text) && |text| > 0
    ensures var sep, code := (if enc == B64 then '.' else '~'), (if alg == Siv then '0' else '1');
            SealedMandate(s.maxDecodedLen, [sep] + ([code] + text))
            == match DecodeHalf(Half(code, text), enc, s.maxDecodedLen)
               case None => Err(Malformed)
               case Some(sealed) => Ok(SealedHalf(sealed, alg))
  {
    hide ParseToken, DecodeHalf, IsCode;
    var sep, code := (if enc == B64 then '.' else '~'), (if alg == Siv then '0' else '1');
    CodeClass(code);
    PartsParse("", sep, [code] + text);
    assert "" + [sep] + ([code] + text) == [sep] + ([code] + text);
  }

  lemma {:induction false} NothingOpens(c: Cipher, keys: seq<Key>, sealed: seq<byte>)
    requires !c.gcmSiv
    ensures TrialOpen(c, keys, sealed, GcmSiv).None?
  {
    if |keys| > 0 { NothingOpens(c, keys[1..], sealed); }
  }

  /** In a build without AES-GCM-SIV code 1 is still no unknown code: its halves open under no key. */
  lemma UncompiledCodeAnswers(c: Cipher, s: Settings, clock: Option<u64>, enc: Encoding, text: string)
    requires NoSeparator(text) && |text| > 0 && !c.gcmSiv
    ensures var token := [if enc == B64 then '.' else '~'] + (['1'] + text);
            Rejects(c, s, clock, token,
                    if DecodeHalf(Half('1', text), enc, s.maxDecodedLen).None? then Malformed else AuthFailed)
  {
    hide SealedMandate, TrialOpen, DecodeHalf;
    KnownCodeAnswers(c, s, GcmSiv, enc, text);
    if DecodeHalf(Half('1', text), enc, s.maxDecodedLen).Some? {
      NothingOpens(c, s.keys, DecodeHalf(Half('1', text), enc, s.maxDecodedLen).value);
    }
  }

  lemma PlainTexts()
    ensures NoSeparator("AA") && NoSeparator("9AA") && NoSeparator("x") && !IsManifestPart("x")
  {
    hide IsCode;
  }

  /** One stray character in front changes the reason under every verifier and cipher. */
  lemma StrayCharacterIsNoticed(c: Cipher, s: Settings, clock: Option<u64>)
    ensures Rejects(c, s, clock, ".9AA", Unsupported) && Rejects(c, s, clock, "x.9AA", Malformed)
    ensures Rejects(c, s, clock, ".zAA", Unsupported) && Rejects(c, s, clock, ".ZAA", Malformed)
  {
    hide Rejects, AnswersAlike, NoSeparator, IsManifestPart;
    assert NoSeparator("AA") && NoSeparator("9AA") && NoSeparator("x") && !IsManifestPart("x") by { PlainTexts(); }
    assert IsCode('9') && IsCode('z') && !IsCode('Z') by { CodeClass('9'); CodeClass('z'); CodeClass('Z'); }
    UnknownCodeAnswers(c, s, clock, '.', '9', "AA");
    UnknownCodeAnswers(c, s, clock, '.', 'z', "AA");
    UnknownCodeAnswers(c, s, clock, '.', 'Z', "AA");
    ManifestPartDecides(c, s, clock, "x", '.', "9AA");
    assert ['.'] + (['9'] + "AA") == ".9AA" && ['.'] + (['z'] + "AA") == ".zAA" && ['.'] + (['Z'] + "AA") == ".ZAA";
    assert "x" + ['.'] + "9AA" == "x.9AA";
  }
}
