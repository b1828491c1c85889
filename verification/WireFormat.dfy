/** The constants of the format, as numbers and characters. */
module WireFormat {
  import opened Basics
  import opened ByteStrings
  import opened Cbor
  import opened KeySort
  import opened Canonical
  import opened Types
  import opened TextCodec
  import opened HalfPlaintext
  import opened HalfRoundTrip
  import opened HalfPrintParse
  import opened KeyOrder
  import opened Mint
  import opened EndToEnd

  // ---- plaintexts -----------------------------------------------------------------------------

  lemma OneEntry(e: Entry)
    ensures EncodeEntries([e]) == Encode(e.key) + Encode(e.val)
  {
    hide Encode;
    assert |[e][1..]| == 0;
    assert EncodeEntries([e]) == Encode(e.key) + Encode(e.val) + [];
  }

  lemma SixteenBytes(tid: Uuid)
    ensures Encode(Bytes(tid)) == [0x50] + tid
  {
    assert EncodeHead(2, 16) == [0x50];
  }

  /** The reserved keys take one byte each, 0x20 for tid up to 0x24 for iss; a tid is sixteen bytes. */
  lemma ReservedKeyBytes(tid: Uuid, exp: i64, aud: seq<Str>, sub: Str, iss: Str)
    ensures EncodeEntries([TidEntry(tid)]) == [0x20, 0x50] + tid
    ensures EncodeEntries([ExpEntry(exp)]) == [0x21] + Encode(Int(exp))
    ensures EncodeEntries([AudEntry(aud)]) == [0x22] + Encode(AudEntry(aud).val)
    ensures EncodeEntries([SubEntry(sub)]) == [0x23] + Encode(Text(sub))
    ensures EncodeEntries([IssEntry(iss)]) == [0x24] + Encode(Text(iss))
  {
    hide Encode;
    SmallNegativeKey(-1);
    SmallNegativeKey(-2);
    SmallNegativeKey(-3);
    SmallNegativeKey(-4);
    SmallNegativeKey(-5);
    OneEntry(TidEntry(tid));
    OneEntry(ExpEntry(exp));
    OneEntry(AudEntry(aud));
    OneEntry(SubEntry(sub));
    OneEntry(IssEntry(iss));
    AudKey(aud);
    SixteenBytes(tid);
    assert [0x20] + ([0x50] + tid) == [0x20, 0x50] + tid;
  }

  lemma EncodeIfPresent<T>(field: Option<T>, entry: T -> Entry)
    ensures EncodeEntries(IfPresent(field, entry)) == if field.Some? then EncodeEntries([entry(field.value)]) else []
  {
    hide Encode;
  }

  /** The reserved fields of any half, as bytes, in the one order there is. */
  lemma ReservedBytes(f: MandateFields)
    ensures EncodeEntries(ReservedEntries(f))
         == (if f.tid.Some? then [0x20, 0x50] + f.tid.value else [])
            + (if f.exp.Some? then [0x21] + Encode(Int(f.exp.value)) else [])
            + (if f.aud.Some? then [0x22] + Encode(AudEntry(f.aud.value).val) else [])
            + (if f.sub.Some? then [0x23] + Encode(Text(f.sub.value)) else [])
            + (if f.iss.Some? then [0x24] + Encode(Text(f.iss.value)) else [])
  {
    hide Encode, EncodeEntries, IfPresent, TidEntry, ExpEntry, AudEntry, SubEntry, IssEntry;
    var t, e, a := IfPresent(f.tid, TidEntry), IfPresent(f.exp, ExpEntry), IfPresent(f.aud, AudEntry);
    var s, i := IfPresent(f.sub, SubEntry), IfPresent(f.iss, IssEntry);
    EncodeEntriesConcat(t + e + a + s, i);
    EncodeEntriesConcat(t + e + a, s);
    EncodeEntriesConcat(t + e, a);
    EncodeEntriesConcat(t, e);
    EncodeIfPresent(f.tid, TidEntry);
    EncodeIfPresent(f.exp, ExpEntry);
    EncodeIfPresent(f.aud, AudEntry);
    EncodeIfPresent(f.sub, SubEntry);
    EncodeIfPresent(f.iss, IssEntry);
    ReservedKeyBytes(
      if f.tid.Some? then f.tid.value else seq(16, _ => 0), if f.exp.Some? then f.exp.value else 0,
      if f.aud.Some? then f.aud.value else [], if f.sub.Some? then f.sub.value else [],
      if f.iss.Some? then f.iss.value else []);
  }

  lemma EmptyEntries(es: seq<Entry>)
    ensures |es| == 0 ==> EncodeEntries(es) == []
  {
  }

  lemma NoAppRuns()
    ensures EncodeEntries(Sort(OfMajor(CanonEntries([]), 0))) == []
    ensures EncodeEntries(MajorRuns(CanonEntries([]), 2)) == []
  {
    hide EncodeEntries;
    EmptyEntries(Sort(OfMajor(CanonEntries([]), 0)));
    EmptyEntries(MajorRuns(CanonEntries([]), 2));
  }

  lemma TwoReserved(f: MandateFields)
    requires |f.app| == 0 && f.tid.Some? && f.exp.Some? && f.aud.None? && f.sub.None? && f.iss.None?
    ensures EncodeHead(5, |EntriesOf(f)|) == [0xa2]
  {
    assert |EntriesOf(f)| == 2;
  }

  /** The smallest mandate: a map of two, the tid, the expiry. */
  lemma BareMandateBytes(exp: i64, tid: Uuid)
    ensures ToMandatePlaintext(exp, tid, None, None, None, Map([]))
         == Ok([0xa2] + ([0x20, 0x50] + tid + ([0x21] + Encode(Int(exp)))))
  {
    hide Encode, EncodeEntries, EncodeHead, ReservedEntries, EntriesOf, Assemble;
    var f := Bare(exp, tid);
    assert AppEntries(Map([])) == Ok([]);
    assert ToMandatePlaintext(exp, tid, None, None, None, Map([])) == Ok(Assemble(EntriesOf(f)));
    MintedLayout(f);
    ReservedBytes(f);
    NoAppRuns();
    TwoReserved(f);
    var x, y := [0x20, 0x50] + tid, [0x21] + Encode(Int(exp));
    assert EncodeEntries(ReservedEntries(f)) == x + y;
    assert [] + ((x + y) + []) == x + y;
  }

  // ---- tokens ---------------------------------------------------------------------------------

  /** Whole tokens: the separator names the encoding, the codes name the algorithms. */
  lemma TokenCharacters(key: Key, mandateAlg: Alg, manifestAlg: Alg, enc: Encoding,
                        manifest: Option<seq<byte>>, mandate: seq<byte>)
    ensures TokenText(IssuerConfig(key, mandateAlg, manifestAlg, enc), manifest, mandate)
         == (if manifest.Some? then EncodeText(manifest.value, enc) + (if manifestAlg == Siv then "0" else "1") else "")
            + (if enc == B64 then "." else "~")
            + ((if mandateAlg == Siv then "0" else "1") + EncodeText(mandate, enc))
  {
    hide EncodeText;
  }

  lemma EightBytes(b: seq<byte>)
    requires |b| == 8
    ensures FromBigEndian(b)
         == ((((((b[0] as int * 0x100 + b[1] as int) * 0x100 + b[2] as int) * 0x100 + b[3] as int) * 0x100
              + b[4] as int) * 0x100 + b[5] as int) * 0x100 + b[6] as int) * 0x100 + b[7] as int
  {
    forall i | 0 < i <= 8
      ensures FromBigEndian(b[..i]) == 0x100 * FromBigEndian(b[..i - 1]) + b[i - 1] as int
    {
      assert b[..i][..i - 1] == b[..i - 1];
    }
    assert b[..8] == b;
  }

  /** The published manifest key, eight bytes at a time. */
  lemma ManifestKeyWords()
    ensures FromBigEndian(MANIFEST_KEY[..8]) == 0x3812_8463_3d02_ea5f
    ensures FromBigEndian(MANIFEST_KEY[8..16]) == 0x35df_8596_b5cc_4218
    ensures FromBigEndian(MANIFEST_KEY[16..24]) == 0x3100_6046_8e8b_4654
    ensures FromBigEndian(MANIFEST_KEY[24..32]) == 0x55a4_1517_4ea6_e966
    ensures FromBigEndian(MANIFEST_KEY[32..40]) == 0xa9f4_8eec_4ba4_46dd
    ensures FromBigEndian(MANIFEST_KEY[40..48]) == 0xfc8b_7858_7895_356f
    ensures FromBigEndian(MANIFEST_KEY[48..56]) == 0x45a7_5a1a_b741_9454
    ensures FromBigEndian(MANIFEST_KEY[56..]) == 0xdd9f_7aa8_a95d_bdd5
  {
    hide FromBigEndian;
    EightBytes(MANIFEST_KEY[..8]);
    EightBytes(MANIFEST_KEY[8..16]);
    EightBytes(MANIFEST_KEY[16..24]);
    EightBytes(MANIFEST_KEY[24..32]);
    EightBytes(MANIFEST_KEY[32..40]);
    EightBytes(MANIFEST_KEY[40..48]);
    EightBytes(MANIFEST_KEY[48..56]);
    EightBytes(MANIFEST_KEY[56..]);
  }
}
