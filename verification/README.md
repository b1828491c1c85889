# obsigil, modelled and proved in Dafny

obsigil mints and verifies two-part tokens, `[manifest ALG] SEP [ALG mandate]`. Each half is one
canonical CBOR map, sealed by a deterministic AEAD and written as text. The library is a stack of
printers and parsers, and this project models the whole stack and proves that its two sides undo
each other exactly, layer by layer and then end to end.

| layer | modules |
|---|---|
| bytes, UTF-8, floats | `Basics`, `ByteStrings`, `Floats` |
| CBOR writer and lenient reader | `Cbor`, `UniqueDecoding` |
| canonical form | `KeySort`, `Canonical`, `NormalForm`, `KeyOrder` |
| strict decoding against an independent byte grammar | `CanonicalGrammar`, `StrictDecoding`, `StrictGrammar`, `LenientReading` |
| a half's plaintext: reserved fields and application map | `HalfPlaintext`, `HalfRoundTrip`, `HalfPrintParse` |
| text codecs and the token grammar | `TextCodec`, `Alphabets`, `TextBuffer`, `Token` |
| minting and verifying | `Types`, `Aead`, `Mint`, `Verify` |
| whole-token theorems | `VerifyProperties`, `TokenShape`, `EndToEnd`, `WireFormat`, `Determinism`, `Discrepancies` |

Where the source changes things step by step (the in-place canonicalization, the reading loops, the
scanning loop, the builders and their `mint`, the verifier) the model is a method or a class, proved
equal to a specification function; what the source promises is then proved about that function.

The main results:

- `EndToEnd.AcceptedExactlyMinted`: whatever keys it holds, a verifier returns fields `f` for a
  token if and only if minting `f` under the first of its keys that opens the mandate half gives
  that half byte for byte, the application map is portable and canonical, and `f` meets the policy.
- `EndToEnd.MintableIsAcceptedIff`: the answer to every minted token, reason by reason.
- `TokenShape.ManifestPartDecides`: all that a manifest part can do to a mandate's answer.
- `StrictGrammar.StrictMapAcceptsExactlyTheGrammar`: decode leniently, re-encode canonically and
  compare accepts exactly the strings of a grammar written on bytes alone.
- `LenientReading.SpellingRead` and `LenientReading.SpellingAnswer`: the reader takes every
  spelling of every modelled item, and what strict decoding answers to each.
- `NormalForm.CanonicalEncodingDecidesSameness` and `Determinism.SameTokenIff`: one value, whatever
  the order of its maps, has one encoding and mints one token, and different values never share one.
- `HalfRoundTrip.ParsePrintMandate` and `HalfPrintParse.PrintParseMandate`: both directions between
  plaintext bytes and clauses.
- `TextCodec.CodecBijection`, `Token.ParseIsInverseOfPrint`, `UniqueDecoding.DecodeEncode`: each
  lower layer as an exact inverse.

The AEAD is a parameter, a `Cipher` value. `Aead.Lawful` states what is asked of it: opening inverts
sealing, only sealed bytes open, and sealing adds sixteen bytes (section 2.7 of RFC 5297, and
section 5 of RFC 8452 with the fixed nonce). The flag `gcmSiv` is the build feature of that name.
The clock, a fresh tid and the cipher are arguments, so every theorem holds for all of them.

Sizes: lengths of byte strings are below 2^64 and token lengths within a `usize`, as everything in
memory is; these bounds are written as preconditions where a proof needs them.

## Where the code differs from its own words

- The manifest is described as never parsed when a mandate is verified (`obsigil/src/verify.rs:150-151`),
  but a structurally bad manifest half makes the whole token `Malformed` (`obsigil/src/token.rs:71-86`),
  and a good one in front of nothing turns `Malformed` into `EmptyMandate`. The model follows the code.
  `TokenShape.ManifestIsIgnoredIff` says exactly when the manifest part leaves the answer alone, and
  `Discrepancies.StrayCharacterSpoilsAcceptedToken` shows an accepted token that one stray character spoils.
- Minting rejects negative top-level keys and NaN values (`obsigil/src/serial.rs:139-155`) and nothing else about the
  application data, so it can mint a token that no verifier accepts. `HalfPrintParse.MintedMandateReadableIff`
  gives the exact condition and `Discrepancies.ByteStringKeyMintsUnreadable` an instance.
- `expires_in` (`obsigil/src/mint.rs:119-127`) casts the clock's `u64` seconds to an `i64`. For every clock of at
  most 2^63 - 1 seconds the token lives for exactly its duration, or to the last i64. Beyond that the cast wraps
  and the token is born expired: `VerifyProperties.ExpiresInKeepsItsPromiseIff` has the condition for every
  leeway, `VerifyProperties.WrappedClockMintsExpired` an instance. No platform whose `SystemTime` counts an i64
  of seconds, as on Unix, can show such a clock; there the promise always holds. A clock before the epoch
  counts as 0, and the promise is measured from there.
- A readable manifest may carry an `exp` that the manifest writer has no way to write, so re-minting a
  manifest gives its bytes back exactly when it has none: `HalfPrintParse.ParsePrintManifestIff`, with
  `Discrepancies.ManifestWithExpReads` for one that has.
- Repeated keys are forbidden at the top level only (`obsigil/src/serial.rs:236-241`); a nested map may repeat a
  key, and the grammar in `CanonicalGrammar` says so. `Discrepancies.NestedRepeatsAreAccepted` is an instance.

## Model

| member | source | states |
|---|---|---|
| Basics.SaturatingAdd | obsigil/src/mint.rs:125 | i64 addition is exact in range and otherwise stops at the end it would pass |
| Basics.SaturatingUsize | obsigil/src/verify.rs:215 | usize arithmetic is exact up to the largest usize and stops there |
| Basics.WrapToI64 | obsigil/src/verify.rs:302 | the u64 to i64 cast keeps values that fit and turns the others negative by 2^64 |
| ByteStrings.LexAntisym | obsigil/src/serial.rs:52-54 | two keys that are each not after the other have the same encoded bytes |
| ByteStrings.LexTotal | obsigil/src/serial.rs:52-54 | any two encoded keys are comparable |
| ByteStrings.LexTrans | obsigil/src/serial.rs:52-54 | the bytewise order is transitive |
| ByteStrings.BigEndianOrder | obsigil/src/serial.rs:40-47 | fixed-width arguments order bytewise as the numbers they write |
| ByteStrings.Utf8Iff | obsigil/src/serial.rs:209-210 | texts are exactly the byte strings that encode sequences of Unicode scalar values |
| Floats.WidenHalfInjective | obsigil/src/serial.rs:62-64 | different binary16 patterns widen to different binary64 patterns, so a narrowed float has one encoding |
| Floats.WidenSingleInjective | obsigil/src/serial.rs:62-64 | the same for binary32 |
| Floats.WidenNan | obsigil/src/serial.rs:79-84 | a narrow float widens to NaN exactly when it is NaN at its own width |
| Floats.NanIsBeyondInfinity | obsigil/src/serial.rs:83 | a pattern is NaN exactly when it lies beyond infinity, whatever its sign |
| Floats.WidenHalfKeepsValue | obsigil/src/serial.rs:62-64 | a binary16 and its widening have the same sign and number, infinities and NaN payloads included |
| Floats.WidenSingleKeepsValue | obsigil/src/serial.rs:62-64 | the same for binary32 |
| Floats.ToHalf | obsigil/src/serial.rs:62-64 | the half chosen for a value that fits widens back to exactly that value |
| Floats.ToSingle | obsigil/src/serial.rs:62-64 | the same for binary32 |
| UniqueDecoding.DecodeEncode | obsigil/src/serial.rs:40-47 | decoding an encoding followed by any bytes gives the value and exactly those bytes, at any nesting |
| UniqueDecoding.PrefixFree | obsigil/src/serial.rs:40-47 | no encoding is a proper prefix of another |
| UniqueDecoding.EncodeInjective | obsigil/src/serial.rs:40-47 | different values have different encodings |
| UniqueDecoding.ShortEncodingFits | obsigil/src/serial.rs:40-47 | every value whose encoding can exist in memory has lengths that a head can carry |
| KeySort.SortByEncodedKey | obsigil/src/serial.rs:59 | sorting a map's entries in place gives the stable sort of what was there |
| KeySort.InsertInPlace | obsigil/src/serial.rs:59 | one insertion step in place, with the entries behind it untouched |
| KeySort.SortSorted | obsigil/src/serial.rs:59 | the result is in the bytewise order of encoded keys |
| KeySort.SortMultiset | obsigil/src/serial.rs:59 | the result is a rearrangement: no entry is lost or doubled |
| KeySort.SortStable | obsigil/src/serial.rs:59 | entries with the same encoded key keep their order |
| KeySort.SortedStableUnique | obsigil/src/serial.rs:59 | sortedness and stability determine the result completely |
| KeySort.SortDistinct | obsigil/src/serial.rs:157-162 | with distinct keys the insertion order is forgotten: any sorted rearrangement is the result |
| KeySort.SortOfSorted | obsigil/src/serial.rs:59 | what is sorted stays as it is |
| Canonical.Canonicalize | obsigil/src/serial.rs:49-71 | the recursive procedure, updating and sorting each map's entries in place, computes the canonical form |
| Canonical.CanonSortedDeep | obsigil/src/serial.rs:49-71 | afterwards every map at every depth is sorted, inside keys, arrays and tags too |
| Canonical.CanonFixed | obsigil/src/serial.rs:49-71 | a value with every map sorted is left alone |
| Canonical.CanonIdempotent | obsigil/src/serial.rs:49-71 | a second pass changes nothing |
| Canonical.CanonClean | obsigil/src/serial.rs:79-111 | canonicalizing neither adds nor removes a NaN or a disallowed key, at any depth |
| NormalForm.EqualCanonSame | obsigil/src/serial.rs:49-71 | values with one canonical form differ at most in the order of map entries |
| NormalForm.SameEqualCanon | obsigil/src/serial.rs:49-71 | values that differ at most in the order of map entries have one canonical form, given distinct keys |
| NormalForm.CanonicalEncodingDecidesSameness | obsigil/src/serial.rs:5-7 | equality up to map order at every depth holds if and only if the canonical encodings are the same bytes |
| NormalForm.RepeatedKeysShowOrder | obsigil/src/serial.rs:49-60 | with a repeated key the order of insertion shows in the bytes |
| KeyOrder.HeadOrder | obsigil/src/serial.rs:40-47 | shortest heads order by major type and then by argument, whatever follows |
| KeyOrder.EncodedKeyOrder | obsigil/src/serial.rs:52-54 | encoded keys order bytewise exactly as: non-negative integers up, negative integers by magnitude, texts by length then bytes |
| KeyOrder.SortedFollowsKeyOrder | obsigil/src/serial.rs:52-60 | a sorted map lists its integer and text keys in that order |
| KeyOrder.MintedLayout | obsigil/src/serial.rs:157-189 | every half that mints is one map head, then the application's integer keys, tid, exp, aud, sub, iss as present, then its other keys by major type |
| KeyOrder.SortByMajor | obsigil/src/serial.rs:52-60 | sorting by encoded keys is sorting within each major type, one type after another |
| KeyOrder.AppRunsAreTexts | obsigil/src/serial.rs:52-60 | when the application has integer and text keys only, those other keys are its texts |
| KeyOrder.CanonKeepsSize | obsigil/src/serial.rs:49-71 | canonicalizing never changes the number of encoded bytes |
| KeyOrder.AssembledSize | obsigil/src/serial.rs:157-162 | a minted plaintext is exactly as long as the head and what was pushed |
| StrictDecoding.StrictlyDecode | obsigil/src/serial.rs:204-250 | the procedure with its set of seen keys and in-place canonicalization gives the specified result and reason |
| StrictDecoding.StrictlySortedIff | obsigil/src/serial.rs:235-241 | strict key order is key order without repetition |
| StrictDecoding.StrictMapResult | obsigil/src/serial.rs:204-250 | what is accepted encodes to exactly the input, is sorted at every depth, free of NaN and disallowed keys, distinct on top |
| StrictDecoding.StrictMapAccepts | obsigil/src/serial.rs:204-250 | the canonical bytes of any such map are accepted with its entries in order |
| StrictDecoding.AnyReaderAcceptsAlike | obsigil/src/serial.rs:209-248 | any reader that takes back what is written accepts the same plaintexts with the same entries, whatever else it tolerates |
| StrictGrammar.WrittenItem | obsigil/src/serial.rs:40-47 | what the writer emits for a clean value derives from the byte grammar |
| StrictGrammar.ItemIsWritten | obsigil/src/serial.rs:40-47 | every string of the byte grammar is what the writer emits for some clean value |
| StrictGrammar.CanonicalMapWritten | obsigil/src/serial.rs:204-250 | canonical maps with distinct keys derive from the top-level grammar |
| StrictGrammar.CanonicalMapIsWritten | obsigil/src/serial.rs:204-250 | every string of the top-level grammar is a canonical map with distinct keys, written |
| StrictGrammar.StrictMapAcceptsExactlyTheGrammar | obsigil/src/serial.rs:204-250 | lenient decoding, checks, re-encoding and comparison accept exactly the byte grammar: unsorted keys, long heads, indefinite lengths and trailing bytes are all caught |
| LenientReading.SpellingRead | obsigil/src/serial.rs:209-210 | the reader takes every spelling of every item as what it means: long heads, strings in chunks, open containers, any float width, `undefined` as null |
| LenientReading.SpellingAnswer | obsigil/src/serial.rs:209-250 | strict decoding of any spelled item with anything behind it: `Malformed` if no map, taken if it is the canonical encoding of a clean map with distinct keys, `NonCanonical` otherwise |
| LenientReading.EveryMapIsReadAndRefused | obsigil/src/serial.rs:242-248 | every map there is has a spelling that is read as that map and refused as `NonCanonical` |
| LenientReading.DecodeExtends | obsigil/src/serial.rs:209-210 | what follows an item never changes how it is read |
| LenientReading.TruncatedIsMalformed | obsigil/src/serial.rs:209-210 | any spelling of any item, cut short anywhere, is `Malformed` |
| HalfRoundTrip.NegativeIntByLeadingByte | obsigil/src/serial.rs:73-77 | the leading byte of the encoded key tells exactly the negative integers |
| HalfRoundTrip.ClassifyBySign | obsigil/src/serial.rs:113-135 | the sign decides the namespace, for every key |
| HalfPlaintext.BuildMandatePlaintext | obsigil/src/serial.rs:164-189 | the pushes, canonicalization and encoding give the specified plaintext or error |
| HalfPlaintext.BuildManifestPlaintext | obsigil/src/serial.rs:191-202 | the same for a manifest |
| HalfPlaintext.ReadMandatePlaintext | obsigil/src/serial.rs:291-332 | the loop over the entries, updating one field at a time, gives the specified fields or reason |
| HalfPlaintext.ReadManifestPlaintext | obsigil/src/serial.rs:334-363 | the same for a manifest, with nothing to show in place of every failure |
| HalfRoundTrip.AudRoundTrip | obsigil/src/serial.rs:275-287 | an audience reads back exactly from the array written for it and from nothing else |
| HalfRoundTrip.AppOnly | obsigil/src/serial.rs:317 | the application entries are exactly the decoded entries with integer or text keys outside the reserved namespace |
| HalfRoundTrip.ReadEntriesPartition | obsigil/src/serial.rs:303-320 | each entry lands in exactly one reserved field or in the application map |
| HalfRoundTrip.MandatePartition | obsigil/src/serial.rs:291-332 | reading a mandate loses no entry, doubles none, and keeps the application's order |
| HalfRoundTrip.FirstBadEntryDecides | obsigil/src/serial.rs:303-320 | the first entry that cannot be read decides the reason |
| HalfRoundTrip.ReadEntriesOk | obsigil/src/serial.rs:303-320 | the loop succeeds if and only if every entry can be read by itself |
| HalfRoundTrip.BadEntryReason | obsigil/src/serial.rs:252-287 | each reason exactly: unknown negative key, key of another kind, or a reserved key whose value no fields would be written as |
| HalfRoundTrip.AssembleRearranged | obsigil/src/serial.rs:157-162 | entries of a canonical map, pushed in any order, assemble to that map's bytes |
| HalfRoundTrip.AppEntriesAccepts | obsigil/src/serial.rs:136-155 | application keys and values without NaN pass the minting checks unchanged |
| HalfRoundTrip.AppEntriesErrors | obsigil/src/serial.rs:136-155 | which error application data gives: not a map first, then a negative key, then a NaN value |
| HalfRoundTrip.AppRead | obsigil/src/serial.rs:291-332 | application entries read from a half have integer or text keys, no NaN, no repeats, and are in order |
| HalfRoundTrip.ParsePrintMandate | obsigil/src/serial.rs:164-189 | for every plaintext the reader accepts with tid and exp, writing the result gives the plaintext back byte for byte |
| HalfPrintParse.ParseAssembled | obsigil/src/serial.rs:291-332 | the reader takes back every assembled set of fields, the application map in canonical order |
| HalfPrintParse.PrintParseMandate | obsigil/src/serial.rs:291-332 | what the writer prints from portable data, the reader returns with the same exp, tid, iss, aud and sub |
| HalfPrintParse.MintedMandateReadableIff | obsigil/src/serial.rs:136-155 | a minted plaintext reads back with exactly its fields if its map has integer or text keys at every depth and distinct top-level keys, and is `NonCanonical` otherwise |
| HalfPrintParse.AssembledIsWellFormed | obsigil/src/serial.rs:204-250 | minted bytes are never `Malformed` to the strict decoder |
| HalfPrintParse.ReadAppIsCanonical | obsigil/src/serial.rs:291-332 | the application map that is read is portable and in canonical order |
| HalfPrintParse.SlotsDetermined | obsigil/src/serial.rs:164-189 | the pushed entries, in any order, determine every field |
| HalfPrintParse.ClaimsAreFields | obsigil/src/serial.rs:334-363 | the manifest loop answers what the mandate loop does, with tid, aud and sub forbidden and iss required |
| HalfPrintParse.ManifestReadsAsTidlessMandate | obsigil/src/serial.rs:334-363 | a plaintext is a readable manifest if and only if it reads as a mandate with iss and without tid, aud and sub |
| HalfPrintParse.ManifestPartition | obsigil/src/serial.rs:334-363 | reading a manifest loses no entry and doubles none |
| HalfPrintParse.MintedManifestReadableIff | obsigil/src/serial.rs:191-202 | a minted manifest reads back as exactly its iss and claims if the claims are portable, and shows nothing otherwise |
| HalfPrintParse.ParsePrintManifestIff | obsigil/src/serial.rs:334-363 | re-minting a readable manifest gives its bytes back if and only if it carries no exp |
| Types.Alg.FromCode | obsigil/src/types.rs:35-43 | codes and algorithms correspond one to one; every other character is no algorithm |
| Types.Encoding.FromSeparator | obsigil/src/types.rs:72-79 | separators and encodings correspond one to one; every other character is no encoding |
| TextCodec.SymbolValue | obsigil/src/encoding.rs:26-33 | a character has a value exactly when it is one of the 64 symbols, and then that symbol's |
| TextCodec.HexValue | obsigil/src/encoding.rs:26-33 | a character has a value exactly when it is a lowercase hex digit, and then that digit's |
| TextCodec.DecodeEncodeB64 | obsigil/src/encoding.rs:18-33 | base64url decodes what it encoded, at every length |
| TextCodec.EncodeDecodeB64 | obsigil/src/encoding.rs:26-33 | any text that decodes is the encoding of its result: bad lengths, padding, alphabet and trailing bits are refused |
| TextCodec.DecodeEncodeHex | obsigil/src/encoding.rs:18-33 | hex decodes what it encoded |
| TextCodec.EncodeDecodeHex | obsigil/src/encoding.rs:26-33 | any text that decodes as hex is the encoding of its result |
| TextCodec.CodecBijection | obsigil/src/encoding.rs:18-33 | for both codecs, a text decodes to bytes if and only if it is their encoding |
| TextCodec.EncodedLength | obsigil/src/encoding.rs:10-16 | the computed text length is the length of every encoding |
| TextCodec.EncodedPlain | obsigil/src/encoding.rs:18-24 | encodings hold neither separator and no character beyond ASCII |
| Alphabets.SymbolIsInAlphabet | obsigil/src/encoding.rs:18-33 | each value's symbol is that of base64url as RFC 4648 lists it |
| Alphabets.HexDigitIsInAlphabet | obsigil/src/encoding.rs:18-33 | each value's digit is the lowercase one |
| Alphabets.DecodedInAlphabet | obsigil/src/encoding.rs:1-4 | whatever decodes is written in its alphabet alone: no padding, whitespace or other letter case |
| Alphabets.GroupNumber | obsigil/src/encoding.rs:18-24 | a group's symbols and its bytes are one number, zero bits filling the last symbol |
| Alphabets.EncodeB64ByGroups | obsigil/src/encoding.rs:18-24 | base64 writes three bytes at a time in four symbols, and what is left in two or three |
| Alphabets.EncodeHexByBytes | obsigil/src/encoding.rs:18-24 | hexadecimal writes each byte in its own two digits |
| Alphabets.Base64Example | obsigil/src/encoding.rs:18-24 | two texts in which base64url differs from base64 |
| Alphabets.HexExample | obsigil/src/encoding.rs:64-67 | the text of five given bytes |
| Alphabets.RefusedTexts | obsigil/src/encoding.rs:51-74 | trailing bits, padding, a lone symbol, upper case and an odd digit are refused |
| TextBuffer.Buffer.WithCapacity | obsigil/src/mint.rs:252 | a new text is empty and remembers its capacity |
| TextBuffer.Buffer.Push | obsigil/src/mint.rs:255 | one character is appended |
| TextBuffer.Buffer.PushStr | obsigil/src/verify.rs:383 | a text is appended |
| TextBuffer.EncodeInto | obsigil/src/encoding.rs:18-24 | the encoding is appended to what was there |
| Token.Parse | obsigil/src/token.rs:45-117 | the scanning loop and the slicing give the specified halves or error |
| Token.ParseIsInverseOfPrint | obsigil/src/token.rs:45-117 | a token parses to given pieces if and only if they are well formed and it is their printing |
| Token.PartsParse | obsigil/src/token.rs:64-117 | the pieces or the error of every text with one separator, the manifest part judged first |
| Token.SeparatorsAreCountedFirst | obsigil/src/token.rs:47-63 | `Empty` for the empty text only, `SeparatorCount` for every other whose count is not one |
| Token.OneSeparatorIff | obsigil/src/token.rs:51-66 | a count of one means one separator with none on either side |
| Token.MandateCodeIff | obsigil/src/token.rs:40-43 | the code of a mandate may be any of the digits and lowercase letters, written out, and nothing else |
| Token.ManifestCodeIff | obsigil/src/token.rs:40-43 | and so may the code of a manifest |
| Token.OnlySeparator | obsigil/src/token.rs:51-66 | with a count of one, neither side of the found index holds a separator |
| Token.MandateHalf | obsigil/src/verify.rs:378-385 | pushing the pieces gives the specified carved mandate |
| Token.ManifestHalf | obsigil/src/verify.rs:349-357 | pushing the pieces gives the specified carved manifest |
| Token.CarvedMandateParses | obsigil/src/verify.rs:378-385 | a carved mandate is a token with the same mandate half and nothing else |
| Token.CarvedManifestParses | obsigil/src/verify.rs:349-357 | a carved manifest is a token with the same manifest half and nothing else |
| Token.CarvingIsIdempotent | obsigil/src/verify.rs:349-385 | carving a carved half changes nothing |
| Token.SpliceParses | obsigil/src/verify.rs:349-385 | one token's carved manifest and another's carved mandate make a token of those two halves |
| Aead.OpensIffSealed | obsigil/src/aead.rs:14-32 | a half opens to a plaintext if and only if sealing the plaintext gives the half |
| Aead.LawfulCiphersExist | obsigil/src/aead.rs:14-32 | the laws asked of the cipher do not contradict each other |
| Mint.Issuer.constructor | obsigil/src/mint.rs:42-49 | the defaults: AES-SIV for both halves and base64url |
| Mint.Issuer.SetAlg | obsigil/src/mint.rs:52-55 | only the mandate's algorithm changes |
| Mint.Issuer.SetManifestAlg | obsigil/src/mint.rs:58-61 | only the manifest's algorithm changes |
| Mint.Issuer.SetEncoding | obsigil/src/mint.rs:64-67 | only the encoding changes |
| Mint.MintBuilder.constructor | obsigil/src/mint.rs:71-82 | a new builder asks for nothing but its application value |
| Mint.MintBuilder.Exp | obsigil/src/mint.rs:100-103 | only exp changes |
| Mint.MintBuilder.ExpiresIn | obsigil/src/mint.rs:119-127 | only exp changes, to now plus the duration with both saturations |
| Mint.MintBuilder.Tid | obsigil/src/mint.rs:130-133 | only tid changes |
| Mint.MintBuilder.IssuedBy | obsigil/src/mint.rs:136-139 | only iss changes |
| Mint.MintBuilder.Audience | obsigil/src/mint.rs:160-167 | only aud changes, empty audiences included |
| Mint.MintBuilder.Subject | obsigil/src/mint.rs:170-173 | only sub changes |
| Mint.MintBuilder.Manifest | obsigil/src/mint.rs:199-202 | only the manifest changes, to its plaintext or to the error that building it gave |
| Mint.MintBuilder.MintWith | obsigil/src/mint.rs:206-261 | the checks in order, sealing and assembly give the specified token or the first error |
| Mint.AssembleToken | obsigil/src/mint.rs:243-260 | the pushes give the specified token and fill the precomputed capacity exactly |
| Mint.TokenTextParses | obsigil/src/mint.rs:243-260 | an assembled token parses into exactly the halves it was made of |
| WireFormat.TokenCharacters | obsigil/src/types.rs:28-70 | whole tokens with their characters written out: dot and tilde, 0 and 1 |
| WireFormat.ReservedBytes | obsigil/src/serial.rs:26-33 | the reserved fields of any half as bytes: keys 0x20 for tid to 0x24 for iss, in that order |
| WireFormat.BareMandateBytes | obsigil/src/serial.rs:164-189 | the smallest mandate, byte for byte |
| WireFormat.ManifestKeyWords | obsigil/src/types.rs:86-95 | the published manifest key as eight numbers |
| EndToEnd.MintsIff | obsigil/src/mint.rs:206-261 | exactly when minting succeeds, in terms of the request alone |
| EndToEnd.MintErrors | obsigil/src/mint.rs:206-241 | the answer to every request: which error, the first fault deciding, or a token |
| EndToEnd.FreshTidIsMinted | obsigil/src/mint.rs:213 | without a tid the fresh one is minted, and with one the fresh one is not looked at |
| Verify.AudContains | obsigil/src/verify.rs:288-297 | the loop without early exit decides membership |
| Verify.Verifier.constructor | obsigil/src/verify.rs:48-58 | the defaults: no keys, no audience, no leeway, 64 KiB |
| Verify.Verifier.AddKey | obsigil/src/verify.rs:68-71 | the key goes behind the others |
| Verify.Verifier.AddKeys | obsigil/src/verify.rs:94-97 | the keys go behind the others in order |
| Verify.Verifier.SetAudience | obsigil/src/verify.rs:101-104 | only the audience changes |
| Verify.Verifier.SetLeeway | obsigil/src/verify.rs:110-113 | the leeway is what was asked for, and never beyond sixty seconds, in every reachable verifier |
| Verify.Verifier.SetNow | obsigil/src/verify.rs:135-138 | only the injected time changes |
| Verify.Verifier.SetMaxDecodedLen | obsigil/src/verify.rs:144-147 | only the size cap changes |
| Verify.Verifier.MandatePlaintext | obsigil/src/verify.rs:199-228 | the early returns and the trial loop give the specified plaintext or reason |
| Verify.Verifier.VerifiedClauses | obsigil/src/verify.rs:242-272 | the policy checks in order give the specified clauses or the first reason, and nothing is accepted sixty seconds past exp or later |
| Verify.Verifier.UncheckedClauses | obsigil/src/verify.rs:274-285 | the two presence checks in order give the specified clauses or the first reason |
| Verify.OpenManifest | obsigil/src/verify.rs:391-406 | the early returns give the specified manifest plaintext |
| Verify.ReadManifestClaims | obsigil/src/verify.rs:323-327 | opening and reading give the specified claims |
| VerifyProperties.GuardIsRedundant | obsigil/src/verify.rs:211-221 | removing the encoded-length guard changes no answer for any text, encoding and cap, saturation included |
| VerifyProperties.Utf8LenCountsOctets | obsigil/src/verify.rs:215 | the length the guard looks at is that of the text in UTF-8 |
| VerifyProperties.FloorShutsOutOnlyEmpty | obsigil/src/verify.rs:23-25 | the lower size bound shuts out the sealed empty plaintext and no other |
| VerifyProperties.TrialOpensBySomeKey | obsigil/src/verify.rs:223-227 | trial decryption succeeds if and only if some candidate opens the half, and returns what one of them opens it to |
| VerifyProperties.TrialFindsFirst | obsigil/src/verify.rs:223-227 | the first candidate that opens decides |
| VerifyProperties.TrialHasFirst | obsigil/src/verify.rs:223-227 | whenever trial decryption succeeds, it is with the first candidate that opens |
| VerifyProperties.MoreKeysAreStable | obsigil/src/verify.rs:94-97 | appending candidate keys changes no outcome other than `AuthFailed`, at every terminal |
| VerifyProperties.KeyOrderKeepsAuthentication | obsigil/src/verify.rs:223-227 | reordering keys changes neither whether a token authenticates nor the reason when it does not |
| VerifyProperties.KeyOrderIrrelevant | obsigil/src/verify.rs:223-227 | when at most one key opens the half, reordering changes no result at any terminal |
| VerifyProperties.OneKeyDecides | obsigil/src/verify.rs:223-227 | if no two different keys open the half, a key that authenticates it alone authenticates it among the others |
| VerifyProperties.CarvedMandateVerifiesAlike | obsigil/src/verify.rs:359-385 | the carved mandate gets the same answer as the whole token from every verifier terminal |
| VerifyProperties.CarvedManifestReadsAlike | obsigil/src/verify.rs:329-357 | the carved manifest reads as the whole token |
| VerifyProperties.SpliceReadsAndVerifies | obsigil/src/verify.rs:349-385 | a spliced token reads as the manifest's token and verifies as the mandate's |
| TokenShape.ManifestPartDecides | obsigil/src/verify.rs:206-208 | the answer to every token with one separator, at every verifier terminal: `Malformed` if the manifest part is no half, `EmptyMandate` if it stands alone, and otherwise the mandate part's own answer |
| TokenShape.ManifestIsIgnoredIff | obsigil/src/token.rs:70-86 | exactly when the manifest part leaves the answer alone, at every verifier terminal |
| TokenShape.StrayCharacterSpoils | obsigil/src/token.rs:70-86 | one stray character in front makes any mandate-only token malformed |
| TokenShape.StrayCharacterIsNoticed | obsigil/src/token.rs:70-98 | tokens whose reason changes with a stray character or the case of their code, under every verifier and cipher |
| TokenShape.SeparatorCountMatters | obsigil/src/verify.rs:207 | a token without exactly one separator is `Malformed` at every terminal |
| TokenShape.UnknownCodeAnswers | obsigil/src/verify.rs:207-209 | a code that is no digit or lowercase letter is `Malformed`, and one that is but not 0 or 1 is `Unsupported`, at every terminal |
| TokenShape.KnownCodeAnswers | obsigil/src/verify.rs:207-221 | code 0 is AES-SIV, 1 AES-GCM-SIV, a dot base64url and a tilde hexadecimal |
| TokenShape.UncompiledCodeAnswers | obsigil/src/aead.rs:24-32 | in a build without AES-GCM-SIV, code 1 is `AuthFailed` and not `Unsupported` |
| VerifyProperties.CheckedIffUncheckedAndPolicy | obsigil/src/verify.rs:242-285 | the checked terminal accepts exactly what the unchecked one does with a UUIDv7 tid, an unexpired exp and a matching audience |
| VerifyProperties.PolicyReasons | obsigil/src/verify.rs:245-271 | at an injected time, exactly why the policy turns clauses down, each of the four reasons, and that there is no other |
| VerifyProperties.UuidV7Iff | obsigil/src/verify.rs:245-251 | version and variant on the octets |
| VerifyProperties.ClockIsTheTime | obsigil/src/verify.rs:255 | without an injected time the clock's seconds are the time, 0 before the epoch and cast beyond an i64; with one the clock does not matter |
| VerifyProperties.UncheckedIff | obsigil/src/verify.rs:274-285 | the unchecked terminal returns exactly what authenticates and reads with a tid and an exp, of whatever value, with the reasons otherwise |
| VerifyProperties.UncheckedIgnoresPolicy | obsigil/src/verify.rs:274-285 | audience, leeway and time mean nothing to the unchecked terminal |
| VerifyProperties.ManifestIsNoMandate | obsigil/src/verify.rs:245-251 | an authenticated plaintext that reads as a manifest is rejected for its tid at every terminal |
| VerifyProperties.AcceptedEarlier | obsigil/src/verify.rs:253-258 | what is accepted at one time is accepted with the same clauses at every earlier time |
| VerifyProperties.AcceptedBeforeExpiry | obsigil/src/verify.rs:27-30 | nothing is accepted at or past exp plus leeway, at most sixty seconds, by the injected time or else the clock's own seconds |
| VerifyProperties.ExpiresInKeepsItsPromiseIff | obsigil/src/mint.rs:105-127 | for every clock, duration and leeway: the token lives until the mint time plus the duration, or the last i64, if and only if the clock fits an i64 or the leeway makes up for the cast |
| VerifyProperties.ExpiresInWithinLeeway | obsigil/src/mint.rs:105-127 | with any leeway a verifier can have: kept whenever the clock fits an i64, broken at every later clock but those of the last minute |
| VerifyProperties.WrappedClockMintsExpired | obsigil/src/mint.rs:120-125 | a clock of 2^63 seconds and a duration of one second mint a token that has expired at every time from the epoch on |
| VerifyProperties.ExpiresInEndsOnTime | obsigil/src/mint.rs:105-127 | from the promised deadline plus leeway on, the token has expired, whatever saturated |
| EndToEnd.AcceptedIsMintable | obsigil/src/verify.rs:206-272 | an accepted token's mandate half is byte for byte what minting emits from the returned clauses under the first key that opens it |
| EndToEnd.MintedAuthenticates | obsigil/src/verify.rs:206-228 | authentication of every minted token under every verifier: too large, opened by no key, or what the first key that opens it finds |
| EndToEnd.MintableIsAcceptedIff | obsigil/src/verify.rs:242-272 | the answer to every minted token its own key opens first: `Malformed` over the cap, `NonCanonical` if not portable, and otherwise the policy's answer on exactly the minted fields |
| EndToEnd.MintableReadsUnchecked | obsigil/src/verify.rs:274-285 | the unchecked terminal's answer to the same tokens: the minted fields, expired or not and whoever they are for |
| EndToEnd.AcceptedExactlyMinted | obsigil/src/verify.rs:206-272 | for every set of keys: a token verifies to given fields if and only if minting them under the first key that opens its mandate half gives that half, and they are presentable |
| EndToEnd.AcceptedExactlyMintedByOneKey | obsigil/src/verify.rs:206-272 | with one key: if and only if minting the fields under that key gives the half, and they are presentable |
| EndToEnd.MintedManifestReadsIff | obsigil/src/verify.rs:306-327 | a minted manifest reads, keyless, as exactly the claims put in if they are portable and the sealed half is at most 64 KiB, and as nothing otherwise |
| EndToEnd.ManifestOpensIffSealed | obsigil/src/verify.rs:391-406 | the manifest halves that open are exactly the sealings, under the published key, of plaintexts of 1 to 65520 bytes |
| EndToEnd.BareTokenLivesUntilExp | obsigil/src/mint.rs:27-49 | with defaults on both sides a token without application data always mints, verifies to its clauses before exp, and is `Expired` from exp on |
| Determinism.SamePlaintextIff | obsigil/src/serial.rs:5-7 | two mandates have the same plaintext if and only if their fields agree and their maps differ at most in order |
| Determinism.SameManifestPlaintextIff | obsigil/src/serial.rs:5-7 | two manifests have the same plaintext if and only if issuers agree and claims differ at most in order |
| Determinism.SameTokenIff | obsigil/src/serial.rs:5-7 | one issuer mints the same token, with or without a manifest half, from the same clauses and claims and from no others |
| Discrepancies.StrayCharacterSpoilsAcceptedToken | obsigil/src/token.rs:70-86 | an accepted token that a stray character in the manifest's place makes malformed |
| Discrepancies.ByteStringKeyMintsUnreadable | obsigil/src/serial.rs:136-155 | a map with a byte-string key mints and is `NonCanonical` to the reader |
| Discrepancies.ManifestWithExpReads | obsigil/src/serial.rs:334-363 | a manifest with exp that reads and that the manifest writer does not write |
| Discrepancies.NestedRepeatsAreAccepted | obsigil/src/serial.rs:235-248 | a nested map with a repeated key passes strict decoding in either order, as two different plaintexts of one value |

## Left out

- The AEAD constructions, HKDF and their RustCrypto calls: foreign code, present only as the laws in `Aead.Lawful`.
- The command-line tool, `lowlevel.rs`, error display text, the `Authorization` header helper and the clause getters: wrappers.
- Key parsing and generation, zeroizing, constant-time comparison, the system clock and `Uuid::now_v7`: side channels, I/O and randomness; time and tid are arguments, and `fresh` tids that are not version 7 are rejected as the code does.
- Serde: the application type is the raw CBOR map, so the `Serialization` mint error and `Malformed` from an application type that does not fit do not occur.
- ciborium's own leniency: the reader here follows RFC 8949, has no depth limit, and rejects an indefinite-length string nested in another. Which of `Malformed` and `NonCanonical` such unusual bytes get may differ; what is accepted does not, for any reader that takes back what the writer writes (`StrictDecoding.AnyReaderAcceptsAlike`).
- Bignum tags 2 and 3: outside the value type, and the reader rejects them.
- NaN payloads: a narrow NaN widens with its payload; obsigil rejects every NaN, so no result depends on it.
- Canonical.Canonicalize: the entries of one map, or the items of one array, are updated and sorted in place in an array; the tree they belong to is rebuilt as a value, so sharing between subtrees is not captured.
- KeySort.SortByEncodedKey: an insertion sort stands for the standard library's stable sort with cached keys; stability and order determine the result, not the number of comparisons.
- TextBuffer.EncodeInto: the codec loops belong to the data_encoding crate and appear as recursive functions after RFC 4648.
- Token.Parse: indices count characters, not UTF-8 bytes; the byte length of a text enters where the source compares it, in the size guard.
- Distinct keys inside nested maps are a condition of the sameness theorems (`NormalForm.CanonicalEncodingDecidesSameness`, `Determinism.SameTokenIff`): with a repeated nested key the stable sort keeps insertion order, so order can show in the bytes (`NormalForm.RepeatedKeysShowOrder`).
