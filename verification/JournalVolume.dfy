/** A small volume that meets every hypothesis of the flag rewrite: a $MFT of sixteen
    one-sector records, the journal in record 12, and $Extend in record 11. */
module JournalVolume {
  import opened Bytes
  import opened Arithmetic
  import opened Runlist
  import opened Streams
  import opened FileRecords
  import opened FlagCopies
  import opened RecordStore
  import opened FlagRewrite
  import MS = MultiSector

  const JOURNAL: nat := 12

  const MFT_RUN := Run(0, 2, Some(1))

  const G := Geometry(512, 8192, 3, [MFT_RUN])

  /** What both records share: header, fixup array, first attribute at 56, end marker at 240. */
  function FrameByte(j: nat): byte {
    if j < 4 then [0x46, 0x49, 0x4C, 0x45][j]
    else if j == 4 then 48
    else if j == 6 then 2
    else if j == 20 then 56
    else if j == 24 then 248
    else if 240 <= j < 244 then 0xFF
    else 0
  }

  /** Sequence number 3; $STANDARD_INFORMATION at 56 with 48 bytes, $FILE_NAME at 128 with 88. */
  function JournalByte(j: nat): byte {
    if j == 16 then 3
    else if j == 56 then 0x10
    else if j == 60 then 72
    else if j == 72 then 48
    else if j == 76 then 24
    else if j == 128 then 0x30
    else if j == 132 then 112
    else if j == 144 then 88
    else if j == 148 then 24
    else if j == 152 then 11         // parent: $Extend
    else if j == 216 then 11         // eleven characters
    else if 218 <= j < 240 then ROOT_HEALTH[j - 218]
    else FrameByte(j)
  }

  /** Sequence number 5; the $I30 root at 56: its name at 80, the node header at 104, the key's entry at 120,
      the terminal entry at 224. */
  function ExtendByte(j: nat): byte {
    if j == 16 then 5
    else if j == 22 then 3           // in use, a directory
    else if j == 56 then 0x90
    else if j == 60 then 184
    else if j == 65 then 4
    else if j == 66 then 24
    else if j == 72 then 152
    else if j == 76 then 32
    else if 80 <= j < 88 then I30[j - 80]
    else if j == 88 then 0x30        // keyed by file name
    else if j == 92 then 1
    else if j == 97 then 16          // index blocks of 4096 bytes
    else if j == 104 then 16
    else if j == 108 then 136
    else if j == 112 then 136
    else if j == 120 then 12         // child: the journal, of sequence number 3
    else if j == 126 then 3
    else if j == 128 then 104
    else if j == 130 then 88
    else if j == 136 then 11         // parent: $Extend, of sequence number 5
    else if j == 142 then 5
    else if j == 200 then 11
    else if 202 <= j < 224 then ROOT_HEALTH[j - 202]
    else if j == 232 then 16
    else if j == 236 then 2
    else FrameByte(j)
  }

  function JournalRecord(): (r: Bytes)
    ensures |r| == 512
  {
    seq(512, j requires 0 <= j < 512 => JournalByte(j))
  }

  function ExtendRecord(): (r: Bytes)
    ensures |r| == 512
  {
    seq(512, j requires 0 <= j < 512 => ExtendByte(j))
  }

  function Image(): (r: Bytes)
    ensures |r| == 12288
  {
    Zeros(9728) + ExtendRecord() + JournalRecord() + Zeros(1536)
  }

  // ---------- the journal's record ----------

  lemma JournalAt(j: nat)
    requires j < 512
    ensures JournalRecord()[j] == JournalByte(j)
  {
  }

  lemma JournalWords(o: nat)
    requires o + 4 <= 512
    ensures U16(JournalRecord(), o) == JournalByte(o) as int + 0x100 * (JournalByte(o + 1) as int)
    ensures U32(JournalRecord(), o)
         == U16(JournalRecord(), o) + 0x1_0000 * (JournalByte(o + 2) as int + 0x100 * (JournalByte(o + 3) as int))
  {
    hide JournalRecord, JournalByte;
    JournalAt(o);
    JournalAt(o + 1);
    JournalAt(o + 2);
    JournalAt(o + 3);
  }

  const STANDARD := Attribute(0x10, 56, 72, false, 0, 0, 0)
  const NAME := Attribute(0x30, 128, 112, false, 0, 0, 0)
  const CHILD: nat := 0x3_0000_0000_000C
  const PARENT: nat := 0x5_0000_0000_000B
  const ROOT := Attribute(0x90, 56, 184, false, 4, 24, 0)

  lemma JournalDecodes()
    ensures MS.Decode(JournalRecord(), SECTOR, FILE) == Ok(JournalRecord()) && Tidy(JournalRecord())
  {
    hide JournalRecord, U16, MS.Decode, MS.ArrayFree;
    var r := JournalRecord();
    JournalWords(4);
    JournalWords(6);
    JournalWords(20);
    assert r[..4] == FILE by {
      JournalAt(0);
      JournalAt(1);
      JournalAt(2);
      JournalAt(3);
      assert r[..4] == [r[0], r[1], r[2], r[3]];
    }
    assert r[510..512] == [0, 0] == r[48..50] == r[50..52] by {
      JournalAt(48);
      JournalAt(49);
      JournalAt(50);
      JournalAt(51);
      JournalAt(510);
      JournalAt(511);
    }
    MS.OneSectorDecodes(r, SECTOR, FILE);
  }

  lemma JournalAttributes()
    ensures Attributes(JournalRecord()) == Ok([STANDARD, NAME])
  {
    hide JournalRecord, JournalByte, FrameByte, U32, U16, HeaderAt;
    JournalFrame();
    StandardHeader();
    NameHeader();
    var r := JournalRecord();
    assert ParseFrom(r, 248, 240) == Ok([]);
    assert [NAME] + [] == [NAME];
    assert ParseFrom(r, 248, 128) == Ok([NAME]);
    assert [STANDARD] + [NAME] == [STANDARD, NAME];
  }

  lemma JournalFrame()
    ensures First(JournalRecord()) == 56 && Used(JournalRecord()) == 248 && U32(JournalRecord(), 240) == AT_END
  {
    hide JournalRecord, U16, U32;
    JournalWords(20);
    JournalWords(24);
    JournalWords(240);
  }

  lemma StandardHeader()
    ensures HeaderAt(JournalRecord(), 248, 56) == Ok(STANDARD) && U32(JournalRecord(), 56) == 0x10
  {
    hide JournalRecord, U16, U32;
    JournalWords(56);
    JournalWords(60);
    JournalWords(66);
    JournalWords(68);
    JournalAt(64);
    JournalAt(65);
  }

  lemma NameHeader()
    ensures HeaderAt(JournalRecord(), 248, 128) == Ok(NAME) && U32(JournalRecord(), 128) == 0x30
  {
    hide JournalRecord, U16, U32;
    JournalWords(128);
    JournalWords(132);
    JournalWords(138);
    JournalWords(140);
    JournalAt(136);
    JournalAt(137);
  }

  lemma JournalValues()
    ensures var r := JournalRecord();
            && ValueStart(r, STANDARD) == Ok(80) && ValueLength(r, STANDARD) == 48
            && ValueStart(r, NAME) == Ok(152) && ValueLength(r, NAME) == 88
            && IsJournalName(r, NAME) == Ok(true)
  {
    hide JournalRecord, JournalByte, FrameByte, U16, U32, U64;
    ValueWords();
    NameText();
    var r := JournalRecord();
    assert 2 * r[216] == 22;
  }

  lemma ValueWords()
    ensures var r := JournalRecord();
            U16(r, 76) == 24 && U32(r, 72) == 48 && U16(r, 148) == 24 && U32(r, 144) == 88
  {
    hide JournalRecord, U16, U32;
    JournalWords(72);
    JournalWords(76);
    JournalWords(144);
    JournalWords(148);
  }

  lemma NameText()
    ensures var r := JournalRecord(); r[216] == 11 && r[218..240] == ROOT_HEALTH && U64(r, 152) == 11
  {
    hide JournalRecord, U16, U32;
    JournalWords(152);
    JournalWords(156);
    JournalAt(216);
    var r := JournalRecord();
    forall k | 0 <= k < 22 ensures r[218 + k] == ROOT_HEALTH[k] { JournalAt(218 + k); }
    assert r[218..240] == ROOT_HEALTH;
  }

  lemma JournalFields()
    ensures FlagOffsets(JournalRecord()) == Ok(Fields(112, 208)) && StandardHoldsFlags(JournalRecord())
  {
    hide JournalRecord, Attributes, ValueStart, ValueLength, IsJournalName;
    JournalAttributes();
    JournalValues();
    var r, attrs := JournalRecord(), [STANDARD, NAME];
    AttributesInside(r);
    assert attrs[1..] == [NAME] && attrs[1..][1..] == [];
    assert Unnamed(attrs[1..], AT_STANDARD_INFORMATION) == [];
    assert Unnamed(attrs, AT_STANDARD_INFORMATION) == [STANDARD] + [];
    assert JournalNames(r, attrs[1..][1..]) == Ok([]);
    assert [NAME] + [] == [NAME];
    assert JournalNames(r, attrs[1..]) == Ok([NAME]);
    assert JournalNames(r, attrs) == JournalNames(r, attrs[1..]);
  }

  // ---------- $Extend's record ----------

  lemma ExtendAt(j: nat)
    requires j < 512
    ensures ExtendRecord()[j] == ExtendByte(j)
  {
  }

  lemma ExtendWords(o: nat)
    requires o + 4 <= 512
    ensures U16(ExtendRecord(), o) == ExtendByte(o) as int + 0x100 * (ExtendByte(o + 1) as int)
    ensures U32(ExtendRecord(), o)
         == U16(ExtendRecord(), o) + 0x1_0000 * (ExtendByte(o + 2) as int + 0x100 * (ExtendByte(o + 3) as int))
  {
    hide ExtendRecord, ExtendByte;
    ExtendAt(o);
    ExtendAt(o + 1);
    ExtendAt(o + 2);
    ExtendAt(o + 3);
  }

  lemma ExtendDecodes()
    ensures MS.Decode(ExtendRecord(), SECTOR, FILE) == Ok(ExtendRecord()) && Tidy(ExtendRecord())
  {
    hide ExtendRecord, U16, MS.Decode, MS.ArrayFree;
    var r := ExtendRecord();
    ExtendWords(4);
    ExtendWords(6);
    ExtendWords(20);
    assert r[..4] == FILE by {
      ExtendAt(0);
      ExtendAt(1);
      ExtendAt(2);
      ExtendAt(3);
      assert r[..4] == [r[0], r[1], r[2], r[3]];
    }
    assert r[510..512] == [0, 0] == r[48..50] == r[50..52] by {
      ExtendAt(48);
      ExtendAt(49);
      ExtendAt(50);
      ExtendAt(51);
      ExtendAt(510);
      ExtendAt(511);
    }
    MS.OneSectorDecodes(r, SECTOR, FILE);
  }

  lemma ExtendAttributes()
    ensures Attributes(ExtendRecord()) == Ok([ROOT])
  {
    hide ExtendRecord, ExtendByte, FrameByte, U32, U16, HeaderAt;
    ExtendFrame();
    RootHeader();
    assert ParseFrom(ExtendRecord(), 248, 240) == Ok([]);
    assert [ROOT] + [] == [ROOT];
  }

  lemma ExtendFrame()
    ensures First(ExtendRecord()) == 56 && Used(ExtendRecord()) == 248 && U32(ExtendRecord(), 240) == AT_END
  {
    hide ExtendRecord, U16, U32;
    ExtendWords(20);
    ExtendWords(24);
    ExtendWords(240);
  }

  lemma RootHeader()
    ensures HeaderAt(ExtendRecord(), 248, 56) == Ok(ROOT) && U32(ExtendRecord(), 56) == 0x90
  {
    hide ExtendRecord, U16, U32;
    ExtendWords(56);
    ExtendWords(60);
    ExtendWords(66);
    ExtendWords(68);
    ExtendAt(64);
    ExtendAt(65);
  }

  lemma RootFound()
    ensures IndexRoot(ExtendRecord()) == Ok(ROOT) && ValueStart(ExtendRecord(), ROOT) == Ok(88)
  {
    hide ExtendRecord, Attributes;
    RootBytes();
    ExtendAttributes();
    var r, attrs := ExtendRecord(), [ROOT];
    AttributesInside(r);
    assert attrs[1..] == [];
    assert WithName(r, attrs, AT_INDEX_ROOT, I30) == [ROOT] + [];
    assert WithName(r, attrs, AT_INDEX_ALLOCATION, I30) == [] + [];
    assert WithName(r, attrs, AT_BITMAP, I30) == [] + [];
  }

  lemma RootBytes()
    ensures var r := ExtendRecord();
            && U16(r, 76) == 32 && U32(r, 72) == 152 && r[80..88] == I30
            && U16(r, 22) == 3 && U64(r, 32) == 0
            && U32(r, 88) == AT_FILE_NAME && U32(r, 92) == 1 && U32(r, 96) == 4096
  {
    hide ExtendRecord, U16, U32;
    ExtendWords(22);
    ExtendWords(32);
    ExtendWords(36);
    ExtendWords(72);
    ExtendWords(76);
    ExtendWords(88);
    ExtendWords(92);
    ExtendWords(96);
    var r := ExtendRecord();
    forall k | 0 <= k < 8 ensures r[80 + k] == I30[k] { ExtendAt(80 + k); }
    assert r[80..88] == I30;
  }

  lemma KeyFound()
    ensures IndexEntries(ExtendRecord(), 104) == Ok([IndexEntry(CHILD, PARENT, ROOT_HEALTH, 192)])
  {
    hide ExtendRecord, ExtendByte, FrameByte;
    HeaderBytes();
    TerminalBytes();
    EntryBytes();
    KeyBytes();
    var r, e := ExtendRecord(), IndexEntry(CHILD, PARENT, ROOT_HEALTH, 192);
    assert Terminal(r, 224, 240) && !Terminal(r, 120, 240);
    assert EntryAt(r, 120, 240) == Ok(e);
    assert EntriesFrom(r, 224, 240) == Ok([]);
    assert [e] + [] == [e];
  }

  lemma HeaderBytes()
    ensures U32(ExtendRecord(), 104) == 16 && U32(ExtendRecord(), 108) == 136 && U32(ExtendRecord(), 112) == 136
    ensures U16(ExtendRecord(), 16) == 5
  {
    hide ExtendRecord, U16, U32;
    ExtendWords(16);
    ExtendWords(104);
    ExtendWords(108);
    ExtendWords(112);
  }

  lemma TerminalBytes()
    ensures U16(ExtendRecord(), 232) == 16 && U16(ExtendRecord(), 234) == 0 && U16(ExtendRecord(), 236) == 2
  {
    hide ExtendRecord, U16, U32;
    ExtendWords(232);
    ExtendWords(234);
    ExtendWords(236);
  }

  lemma EntryBytes()
    ensures U64(ExtendRecord(), 120) == CHILD && U16(ExtendRecord(), 128) == 104
    ensures U16(ExtendRecord(), 130) == 88 && U16(ExtendRecord(), 132) == 0
  {
    hide ExtendRecord, U16, U32;
    ExtendWords(120);
    ExtendWords(124);
    ExtendWords(128);
    ExtendWords(130);
    ExtendWords(132);
  }

  lemma KeyBytes()
    ensures U64(ExtendRecord(), 136) == PARENT && ExtendRecord()[200] == 11 && ExtendRecord()[202..224] == ROOT_HEALTH
  {
    hide ExtendRecord, U16, U32;
    ExtendWords(136);
    ExtendWords(140);
    ExtendAt(200);
    var r := ExtendRecord();
    forall k | 0 <= k < 22 ensures r[202 + k] == ROOT_HEALTH[k] { ExtendAt(202 + k); }
    assert r[202..224] == ROOT_HEALTH;
  }

  lemma ExtendKey()
    ensures IndexFlagOffset(ExtendRecord(), CHILD) == Ok(192) && RootHoldsKey(ExtendRecord(), CHILD)
  {
    hide ExtendRecord, ExtendByte, FrameByte, IndexRoot, IndexEntries, ValueStart, U16;
    RootFound();
    KeyFound();
    HeaderBytes();
    var e := IndexEntry(CHILD, PARENT, ROOT_HEALTH, 192);
    assert [e][1..] == [] && Named([], ROOT_HEALTH) == [];
    assert [e] + [] == [e];
    assert Named([e], ROOT_HEALTH) == [e];
  }

  // ---------- the volume ----------

  lemma MftPlace(x: nat)
    ensures Locate([MFT_RUN], CLUSTER, x) == if x < 8192 then At(4096 + x) else Outside
  {
    SpanIsProduct(0, CLUSTER);
    SpanIsProduct(1, CLUSTER);
    SpanIsProduct(2, CLUSTER);
    LocateOne(MFT_RUN, CLUSTER, x);
  }

  lemma RawRead(n: nat)
    requires n < 16
    ensures Span(n, 512) == 512 * n && RecordMapped(G, n)
    ensures ReadRaw(G, Image(), n) == Ok(Image()[4096 + 512 * n..4608 + 512 * n])
  {
    hide Image, Locate;
    SpanIsProduct(n, 512);
    SpanIsProduct(n + 1, 512);
    SpanIsProduct(0, CLUSTER);
    SpanIsProduct(1, CLUSTER);
    SpanIsProduct(2, CLUSTER);
    hide Span;
    forall x: nat | 512 * n <= x < 512 * n + 512 ensures Locate([MFT_RUN], CLUSTER, x).At? { MftPlace(x); }
    assert Stretch(Image(), MFT_RUN, CLUSTER, 512 * n, 512) == Ok(Image()[4096 + 512 * n..4608 + 512 * n]);
  }

  lemma RecordsRead()
    ensures ReadRecord(G, Image(), JOURNAL) == Ok(JournalRecord())
    ensures ReadRecord(G, Image(), EXTEND_RECORD) == Ok(ExtendRecord())
  {
    hide JournalRecord, ExtendRecord, MS.Decode, ReadRaw, RecordMapped;
    RawRead(11);
    RawRead(12);
    assert Image()[9728..10240] == ExtendRecord();
    assert Image()[10240..10752] == JournalRecord();
    JournalDecodes();
    ExtendDecodes();
  }

  lemma SoundHere()
    ensures Sound(G, |Image()|) && Injective(G.mftRuns, CLUSTER)
  {
    hide Image, Locate;
    SpanIsProduct(3, CLUSTER);
    assert [MFT_RUN][1..] == [];
    var runs := [MFT_RUN];
    assert MFT_RUN.lcn.value + MFT_RUN.length == 3;
    forall i | 0 <= i < |runs| && runs[i].lcn.Some? ensures runs[i].lcn.value + runs[i].length <= 3 {
      assert runs[i] == MFT_RUN;
    }
    assert InVolume(runs, 3) && Contiguous(runs, 0);
    assert G.mftRuns == runs && G.totalClusters == 3;
    assert Span(G.totalClusters, CLUSTER) == 12288;
    ExtentsInjective([MFT_RUN], CLUSTER);
  }

  /** The hypotheses of the rewrite hold of this volume, so what it promises is not empty. */
  lemma ReadyVolume()
    ensures Ready(G, Image(), JOURNAL) && FlagsOf(G, Image(), JOURNAL) == Ok(Flags(0, 0, 0))
  {
    hide Image, JournalRecord, ExtendRecord, JournalByte, ExtendByte, ReadRecord, FlagOffsets, IndexFlagOffset,
         RecordMapped, Injective, Tidy, StandardHoldsFlags, RootHoldsKey, U32, U16, Sound;
    SoundHere();
    RecordsRead();
    JournalDecodes();
    ExtendDecodes();
    JournalFields();
    ExtendKey();
    RawRead(JOURNAL);
    RawRead(EXTEND_RECORD);
    FlagsAreZero();
    assert Reference(JournalRecord(), JOURNAL) == CHILD;
  }

  lemma FlagsAreZero()
    ensures U16(JournalRecord(), 16) == 3
    ensures U32(JournalRecord(), 112) == 0 && U32(JournalRecord(), 208) == 0 && U32(ExtendRecord(), 192) == 0
  {
    hide JournalRecord, ExtendRecord, U16, U32;
    JournalWords(16);
    JournalWords(112);
    JournalWords(208);
    ExtendWords(192);
  }
}
