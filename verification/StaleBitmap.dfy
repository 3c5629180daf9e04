/** A volume on which ensure_fragmented_data, asked for the bitmap's own record, reports
    success and leaves the bitmap wrong: 4112 clusters of one sector, an eight-cluster $MFT at
    cluster 8, a two-cluster bitmap at cluster 4104, and nothing else. */
module StaleBitmap {
  import opened Bytes
  import opened Arithmetic
  import opened Runlist
  import opened Streams
  import opened FixtureRecords
  import opened FixtureImage
  import opened Bitmap
  import opened Volumes
  import opened Fragmentation
  import opened VolumeKept
  import opened MoveCompletes
  import MS = MultiSector
  import FR = FileRecords
  import RecordStore

  const G := Geometry(512, 512, 4112, 8, 512)

  const MFT_RUN := Run(0, 8, Some(8))
  const BITMAP_RUN := Run(0, 2, Some(4104))

  /** Byte j of a record whose one attribute, an unnamed DATA, has this size and these pairs. */
  function RecordByte(size: seq<byte>, pairs: seq<byte>, j: nat): byte
    requires |size| == 2 && |pairs| == 8
  {
    if j < 4 then [0x46, 0x49, 0x4C, 0x45][j]
    else if j == 4 then 48           // fixup array
    else if j == 6 then 2            // two entries
    else if j == 20 then 56          // first attribute
    else if j == 24 then 136         // bytes in use
    else if j == 56 then 0x80        // DATA
    else if j == 60 then 72          // attribute length
    else if j == 64 then 1           // nonresident
    else if j == 88 then 64          // mapping pairs
    else if 104 <= j < 106 then size[j - 104]
    else if 120 <= j < 128 then pairs[j - 120]
    else if 128 <= j < 132 then 0xFF // end marker
    else 0
  }

  function OneAttribute(size: seq<byte>, pairs: seq<byte>): (r: Bytes)
    requires |size| == 2 && |pairs| == 8
    ensures |r| == 512
  {
    seq(512, j requires 0 <= j < 512 => RecordByte(size, pairs, j))
  }

  const MFT_SIZE: seq<byte> := [0, 16]
  const MFT_PAIRS: seq<byte> := [0x11, 8, 8, 0, 0, 0, 0, 0]
  const BITMAP_SIZE: seq<byte> := [2, 2]
  const BITMAP_PAIRS: seq<byte> := [0x21, 2, 8, 0x10, 0, 0, 0, 0]

  function ImageByte(i: nat): byte {
    if 4096 <= i < 4608 then RecordByte(MFT_SIZE, MFT_PAIRS, i - 4096)
    else if 7168 <= i < 7680 then RecordByte(BITMAP_SIZE, BITMAP_PAIRS, i - 7168)
    else if i == 2101249 then 0xFF   // clusters 8 to 15
    else if i == 2101761 then 0x03   // clusters 4104 and 4105
    else 0
  }

  function Image(): (r: Bytes)
    ensures |r| == 2105344
    ensures forall i :: 0 <= i < 2105344 ==> r[i] == ImageByte(i)
  {
    seq(2105344, i requires 0 <= i < 2105344 => ImageByte(i))
  }

  function DataAttr(size: nat, run: Run): Attr {
    Attr(56, 72, Body(0x80, [], true, 0, 0, 64, size, [run], []))
  }

  function Live(): View {
    map[0 := [DataAttr(4096, MFT_RUN)], FILE_BITMAP := [DataAttr(514, BITMAP_RUN)]]
  }

  // ---------- the two records ----------

  lemma OneRunDecodes(pairs: Bytes, run: Run, k: nat)
    requires 0 < k < |pairs| && pairs[0] != 0 && pairs[k] == 0 && run.vcn == 0 && run.lcn.Some?
    requires FirstPair(pairs, 0) == Ok(Pair(k, run.length, run.lcn, run.lcn.value))
    ensures Runs(pairs, 0, false) == Ok([run])
  {
    hide FirstPair;
    assert pairs[k..][0] == 0;
    assert DecodePairs(pairs[k..], run.length, run.lcn.value) == Ok([]);
    assert [run] + [] == [run];
  }

  lemma MftPairs()
    ensures Runs(MFT_PAIRS, 0, false) == Ok([MFT_RUN])
  {
    assert MFT_PAIRS[1..2] == [8] && MFT_PAIRS[2..3] == [8];
    OneByte(8);
    OneRunDecodes(MFT_PAIRS, MFT_RUN, 3);
  }

  lemma OneByte(b: byte)
    ensures FromLe([b]) == b && (b < 128 ==> FromLeSigned([b]) == b)
  {
    assert [b][1..] == [];
    assert Pow256(0) == 1;
  }

  lemma BitmapPairs()
    ensures Runs(BITMAP_PAIRS, 0, false) == Ok([BITMAP_RUN])
  {
    assert BITMAP_PAIRS[1..2] == [2] && BITMAP_PAIRS[2..4] == [8, 0x10];
    OneByte(2);
    FromLeOfTwo(8, 0x10, []);
    assert FromLe([8, 0x10] + []) == FromLe([8, 0x10]) by { assert [8, 0x10] + [] == [8, 0x10]; }
    assert Pow256(1) == 256 * Pow256(0);
    assert FromLeSigned([8, 0x10]) == 4104;
    OneRunDecodes(BITMAP_PAIRS, BITMAP_RUN, 4);
  }

  /** Such a record is its own decoding, its array is clear, and its chain is the attribute. */
  lemma RecordReads(size: seq<byte>, pairs: seq<byte>, run: Run)
    requires |size| == 2 && |pairs| == 8 && Runs(pairs, 0, false) == Ok([run])
    ensures var r := OneAttribute(size, pairs);
            && MS.Decode(r, 512, RecordStore.FILE) == Ok(r) && ClearArray(G, r)
            && First(r) == 56 && Chain(r, 56) == Ok([DataAttr(size[0] + 0x100 * (size[1] as int), run)])
  {
    var r := OneAttribute(size, pairs);
    RecordDecodes(size, pairs);
    RecordChain(size, pairs, run);
  }

  lemma RecordDecodes(size: seq<byte>, pairs: seq<byte>)
    requires |size| == 2 && |pairs| == 8
    ensures var r := OneAttribute(size, pairs);
            MS.Decode(r, 512, RecordStore.FILE) == Ok(r) && ClearArray(G, r) && First(r) == 56
  {
    var r := OneAttribute(size, pairs);
    assert r[..4] == RecordStore.FILE;
    assert U16(r, 4) == 48 && U16(r, 6) == 2 && First(r) == 56;
    assert r[510..512] == r[48..50] == r[50..52];
    MS.OneSectorDecodes(r, 512, RecordStore.FILE);
  }

  /** The 72 bytes of the attribute. */
  lemma RecordBody(size: seq<byte>, pairs: seq<byte>, run: Run)
    requires |size| == 2 && |pairs| == 8 && Runs(pairs, 0, false) == Ok([run])
    ensures BodyOf(OneAttribute(size, pairs)[56..128]) == Ok(DataAttr(size[0] + 0x100 * (size[1] as int), run).body)
  {
    hide Runs;
    var s := OneAttribute(size, pairs)[56..128];
    assert s[64..] == pairs;
    assert forall i :: 0 <= i < 72 ==> s[i] == RecordByte(size, pairs, 56 + i);
    assert s[8] == 1 && s[9] == 0 && s[12] == s[13] == 0 && s[32] == 64 && s[33] == 0;
    assert s[16] == s[17] == s[18] == s[19] == s[20] == s[21] == s[22] == s[23] == 0;
    assert s[48] == size[0] && s[49] == size[1] && s[50] == s[51] == s[52] == s[53] == s[54] == s[55] == 0;
    assert U32(s, 0) == 0x80 && U16(s, 32) == 64 && U16(s, 12) == 0 && U64(s, 16) == 0;
  }

  lemma RecordChain(size: seq<byte>, pairs: seq<byte>, run: Run)
    requires |size| == 2 && |pairs| == 8 && Runs(pairs, 0, false) == Ok([run])
    ensures Chain(OneAttribute(size, pairs), 56) == Ok([DataAttr(size[0] + 0x100 * (size[1] as int), run)])
  {
    hide Runs, BodyOf;
    var r, a := OneAttribute(size, pairs), DataAttr(size[0] + 0x100 * (size[1] as int), run);
    RecordBody(size, pairs, run);
    assert U32(r, 56) == 0x80 && U32(r, 60) == 72 && U32(r, 128) == FR.AT_END;
    assert AttrAt(r, 56) == Ok(a);
    assert Chain(r, 128) == Ok([]);
    assert [a] + [] == [a];
  }

  // ---------- the layout ----------

  lemma Spans(k: nat)
    ensures Span(k, 512) == 512 * k
  {
    SpanIsProduct(k, 512);
  }

  lemma MftPlace(x: nat)
    requires x < 4096
    ensures Locate([MFT_RUN], 512, x) == At(4096 + x)
  {
    Spans(0);
    Spans(8);
    LocateOne(MFT_RUN, 512, x);
  }

  lemma BitmapPlace(x: nat)
    ensures Locate([BITMAP_RUN], 512, x) == if x < 1024 then At(2101248 + x) else Outside
  {
    Spans(0);
    Spans(2);
    Spans(4104);
    LocateOne(BITMAP_RUN, 512, x);
  }

  /** The two records as they lie on the image. */
  lemma RawRecords()
    ensures Slice(Image(), 4096, 512) == Ok(OneAttribute(MFT_SIZE, MFT_PAIRS))
    ensures Slice(Image(), 7168, 512) == Ok(OneAttribute(BITMAP_SIZE, BITMAP_PAIRS))
  {
    assert Image()[4096..4608] == OneAttribute(MFT_SIZE, MFT_PAIRS);
    assert Image()[7168..7680] == OneAttribute(BITMAP_SIZE, BITMAP_PAIRS);
  }

  lemma ZeroFound()
    ensures MftData(G, Image()) == Ok(DataAttr(4096, MFT_RUN))
  {
    hide Image, OneAttribute, Chain, FindFrom, MS.Decode, Slice, ClearArray;
    MftPairs();
    RecordReads(MFT_SIZE, MFT_PAIRS, MFT_RUN);
    RawRecords();
    Spans(8);
    FindInChain(OneAttribute(MFT_SIZE, MFT_PAIRS), 56);
  }

  lemma OffsetsHere(n: nat)
    requires n < 8
    ensures RecordOffset(G, Image(), n) == Ok(4096 + 512 * n)
  {
    hide Image, MftData, Span;
    ZeroFound();
    Spans(n);
    Spans(0);
    Spans(8);
    assert SegmentsFrom([MFT_RUN], 512, 512 * n, 512) == Ok([Segment(Some(4096 + 512 * n), 512)]);
  }

  lemma RecordsHere()
    ensures Record(G, Image(), 0) == Ok(OneAttribute(MFT_SIZE, MFT_PAIRS))
    ensures Record(G, Image(), FILE_BITMAP) == Ok(OneAttribute(BITMAP_SIZE, BITMAP_PAIRS))
    ensures ChainOf(G, Image(), 0) == Ok(Live()[0]) && ChainOf(G, Image(), FILE_BITMAP) == Ok(Live()[FILE_BITMAP])
    ensures ClearArray(G, OneAttribute(BITMAP_SIZE, BITMAP_PAIRS))
  {
    hide Image, OneAttribute, RecordOffset, Chain, MS.Decode, Slice, ClearArray;
    MftPairs();
    BitmapPairs();
    RecordReads(MFT_SIZE, MFT_PAIRS, MFT_RUN);
    RecordReads(BITMAP_SIZE, BITMAP_PAIRS, BITMAP_RUN);
    RawRecords();
    OffsetsHere(0);
    OffsetsHere(6);
  }

  /** The clusters in use. */
  predicate Used(c: nat) {
    8 <= c < 16 || 4104 <= c < 4106
  }

  lemma HoldsHere(id: Id, c: nat)
    ensures Volumes.Holds(Live(), id, c)
       <==> (id == Id(0, 0, 0) && 8 <= c < 16) || (id == Id(FILE_BITMAP, 0, 0) && 4104 <= c < 4106)
  {
  }

  lemma OwnedHere(c: nat)
    ensures Owned(Live(), c) <==> Used(c)
  {
    hide Volumes.Holds;
    HoldsHere(Id(0, 0, 0), c);
    HoldsHere(Id(FILE_BITMAP, 0, 0), c);
    if Owned(Live(), c) {
      var id :| Volumes.Holds(Live(), id, c);
      HoldsHere(id, c);
    }
  }

  lemma OneRunContiguous(run: Run)
    requires run.length > 0
    ensures Contiguous([run], run.vcn)
  {
    assert [run][1..] == [];
  }

  lemma LaidHere()
    ensures Laid(G, Image(), Live())
  {
    hide Image, Record, RecordOffset, ChainOf, Volumes.Holds;
    RecordsHere();
    OffsetsHere(0);
    Spans(8);
    Spans(4112);
    forall id, c: nat ensures Volumes.Holds(Live(), id, c)
       <==> (id == Id(0, 0, 0) && 8 <= c < 16) || (id == Id(FILE_BITMAP, 0, 0) && 4104 <= c < 4106)
    {
      HoldsHere(id, c);
    }
    OneRunContiguous(MFT_RUN);
    OneRunContiguous(BITMAP_RUN);
  }

  const BITMAP := DataAttr(514, BITMAP_RUN)

  lemma BitmapAttr()
    ensures HasData(Live(), FILE_BITMAP) && Data(Live(), FILE_BITMAP) == BITMAP && DataAt(Live(), FILE_BITMAP) == 0
    ensures DataOf(OneAttribute(BITMAP_SIZE, BITMAP_PAIRS)) == Ok(BITMAP) && ContiguousAttr(BITMAP)
  {
    hide OneAttribute, Chain, FindFrom, MS.Decode, ClearArray;
    BitmapPairs();
    RecordReads(BITMAP_SIZE, BITMAP_PAIRS, BITMAP_RUN);
    FindInChain(OneAttribute(BITMAP_SIZE, BITMAP_PAIRS), 56);
    OneRunContiguous(BITMAP_RUN);
  }

  /** The byte that holds the bits of clusters 8k to 8k + 7. */
  lemma BitmapByte(k: nat)
    requires k < 514
    ensures Image()[2101248 + k] == if k == 1 then 0xFF else if k == 513 then 0x03 else 0
  {
  }

  lemma ByteBits(k: nat)
    requires k < 8
    ensures Test(0xFF, k) && (Test(0x03, k) <==> k < 2) && !Test(0, k)
  {
  }

  lemma BitsHere(c: nat)
    requires c < 4112
    ensures BitOf(G, Image(), BITMAP, c) == Ok(Used(c))
  {
    hide Image, ImageByte, Test, Locate;
    BitmapAttr();
    BitMeaning(G, Image(), BITMAP, c);
    BitmapPlace(c / 8);
    BitmapByte(c / 8);
    ByteBits(c % 8);
  }

  lemma ConsistentHere()
    ensures Consistent(G, Image(), Live())
  {
    hide Image, Laid, BitOf, Owned, DataIndex;
    LaidHere();
    BitmapAttr();
    forall c: nat | c < 4112 ensures BitOf(G, Image(), Data(Live(), FILE_BITMAP), c) == Ok(Owned(Live(), c)) {
      BitsHere(c);
      OwnedHere(c);
    }
  }

  // ---------- the run ----------

  /** The bitmap's content as the image holds it. */
  predicate IsBitmap(bits: Bytes) {
    |bits| == 514 && forall k :: 0 <= k < 514 ==> bits[k] == Image()[2101248 + k]
  }

  lemma BitmapReads() returns (bits: Bytes)
    ensures StreamBytes(G, Image(), BITMAP, 0, 514) == Ok(bits) && IsBitmap(bits)
  {
    hide Image, ImageByte, Locate, SegmentsFrom, ReadFrom, Gathered;
    BitmapAttr();
    forall x: nat | x < 514 ensures Locate([BITMAP_RUN], 512, x) == At(2101248 + x) { BitmapPlace(x); }
    GatheredIsRead(Image(), [BITMAP_RUN], 512, 0, 514);
    ReadMeaning(Image(), [BITMAP_RUN], 0, 512, 0, 514);
    assert AllReadable(Image(), [BITMAP_RUN], 512, 0, 514);
    bits := ReadFrom(Image(), [BITMAP_RUN], 512, 0, 514).value;
    hide IsBitmap;
    forall k | 0 <= k < 514 ensures bits[k] == Image()[2101248 + k] {
      assert bits[k - 0] == ByteAt(Image(), Locate([BITMAP_RUN], 512, k));
    }
    BitmapIs(bits);
  }

  lemma BitmapIs(bits: Bytes)
    requires |bits| == 514 && forall k :: 0 <= k < 514 ==> bits[k] == Image()[2101248 + k]
    ensures IsBitmap(bits)
  {
    hide Image;
  }

  lemma FreeHere(bits: Bytes, c: nat)
    requires IsBitmap(bits) && c < 4112
    ensures Free(bits, c) <==> !Used(c)
  {
    hide Image, ImageByte, Test;
    BitmapByte(c / 8);
    ByteBits(c % 8);
  }

  lemma NearestHere(bits: Bytes)
    requires IsBitmap(bits)
    ensures Nearest(bits, 4105, 4112) == Some(4106)
  {
    hide Image, IsBitmap, Free, Nearest;
    FreeHere(bits, 4104);
    FreeHere(bits, 4105);
    FreeHere(bits, 4106);
    var to := Nearest(bits, 4105, 4112);
    assert to.Some? && IsNearest(bits, 4105, 4112, to.value);
    assert Distance(to.value, 4105) <= Distance(4106, 4105);
  }

  const TARGET := Target(BITMAP, 4105, 4106)

  lemma TargetedIs(g: Geometry, image: Bytes, run: Run, record: Bytes, bitmap: Attr, bits: Bytes, to: nat)
    requires Sane(g) && run.lcn.Some? && run.length >= 2
    requires Record(g, image, FILE_BITMAP) == Ok(record) && DataOf(record) == Ok(bitmap)
    requires StreamBytes(g, image, bitmap, 0, (g.totalClusters + 7) / 8) == Ok(bits)
    requires BitOf(g, image, bitmap, LastCluster(run)) == Ok(true)
    requires Nearest(bits, LastCluster(run), g.totalClusters) == Some(to)
    ensures to < g.totalClusters && Targeted(g, image, run) == Ok(Target(bitmap, LastCluster(run), to))
  {
    hide Record, DataOf, StreamBytes, BitOf, Nearest;
  }

  lemma TargetHere()
    ensures Targeted(G, Image(), BITMAP_RUN) == Ok(TARGET)
  {
    hide Image, ImageByte, IsBitmap, Record, DataOf, StreamBytes, BitOf, Nearest, IsNearest, OneAttribute, RecordByte,
         Targeted;
    RecordsHere();
    BitmapAttr();
    var bits := BitmapReads();
    BitsHere(4105);
    NearestHere(bits);
    assert (G.totalClusters + 7) / 8 == 514 && LastCluster(BITMAP_RUN) == 4105;
    TargetedIs(G, Image(), BITMAP_RUN, OneAttribute(BITMAP_SIZE, BITMAP_PAIRS), BITMAP, bits, 4106);
  }

  lemma PreparedHere() returns (p: Prep)
    ensures Prepared(G, Image(), FILE_BITMAP) == Ok(p)
    ensures p.record == OneAttribute(BITMAP_SIZE, BITMAP_PAIRS) && p.data == BITMAP
  {
    hide Image, ImageByte, IsBitmap, Record, DataOf, StreamBytes, OneAttribute;
    RecordsHere();
    BitmapAttr();
    var bits := BitmapReads();
    p := Prep(OneAttribute(BITMAP_SIZE, BITMAP_PAIRS), BITMAP, bits);
  }

  /** The two new pairs take eight bytes, just what the attribute has. */
  lemma PairsFit()
    ensures EncodePairs(Split(BITMAP_RUN, 4106), 0, 0).Ok?
    ensures |EncodePairs(Split(BITMAP_RUN, 4106), 0, 0).value| == 8
  {
    var runs := Split(BITMAP_RUN, 4106);
    Widths();
    assert EncodePair(runs[0], 0).Ok? && |EncodePair(runs[0], 0).value| == 4;
    assert EncodePair(runs[1], 4104).Ok? && |EncodePair(runs[1], 4104).value| == 3;
    assert runs[1..] == [runs[1]] && runs[1..][1..] == [];
    assert EncodePairs(runs[1..], 1, 4104) == Ok(EncodePair(runs[1], 4104).value + [0]);
  }

  lemma Widths()
    ensures UnsignedWidth(1) == 1 && SignedWidth(4104, 1) == Some(2) && SignedWidth(2, 1) == Some(1)
  {
    assert Pow256(0) == 1 && Pow256(1) == 256;
    assert Half(1) == 128 && Half(2) == 32768;
    assert SignedWidth(4104, 2) == Some(2);
  }

  lemma ChosenHere() returns (p: Prep)
    ensures Chosen(G, Image(), Live(), FILE_BITMAP, p, TARGET) && ClearArray(G, p.record)
    ensures p.record == OneAttribute(BITMAP_SIZE, BITMAP_PAIRS) && p.data == BITMAP
  {
    hide Image, OneAttribute, Consistent, Prepared, Targeted, ClearArray;
    ConsistentHere();
    RecordsHere();
    TargetHere();
    p := PreparedHere();
  }

  lemma PassableHere(p: Prep)
    requires p.record == OneAttribute(BITMAP_SIZE, BITMAP_PAIRS) && p.data == BITMAP
    ensures DataOf(p.record) == Ok(p.data) && Passable(G, p, TARGET) && BothInLast(G, p, TARGET)
  {
    hide Image, OneAttribute, EncodePairs, Split, DataOf, Span, Locate;
    BitmapAttr();
    PairsFit();
    Spans(1);
    BitmapPlace(513);
  }

  lemma ChangeReportedHere() returns (p: Prep)
    ensures Prepared(G, Image(), FILE_BITMAP) == Ok(p) && ClearArray(G, p.record)
    ensures Fragment(G, Image(), FILE_BITMAP).Ok? && Fragment(G, Image(), FILE_BITMAP).value.1.changed
  {
    hide Image, OneAttribute, Prepared, Targeted, Fragment, ClearArray, Consistent, Passable, BothInLast, DataOf;
    p := ChosenHere();
    PassableHere(p);
    ChangeReported(G, Image(), Live(), FILE_BITMAP, p, TARGET);
  }

  /** The run itself: the volume is consistent, the operation reports a change, and afterwards
      every record is laid out soundly but the bitmap no longer tells the truth. */
  lemma BitmapLeftStale() returns (length: nat)
    ensures Consistent(G, Image(), Live())
    ensures Fragment(G, Image(), FILE_BITMAP).Ok? && Fragment(G, Image(), FILE_BITMAP).value.1.changed
    ensures HasData(Live(), FILE_BITMAP) && Movable(Live(), FILE_BITMAP, DataAt(Live(), FILE_BITMAP))
    ensures var (result, out) := Fragment(G, Image(), FILE_BITMAP).value;
            var w := VolumeAfter(Live(), FILE_BITMAP, length, out.newLcn);
            Laid(G, result, w) && !Truthful(G, result, w)
  {
    hide Image, Consistent, Prepared, Fragment, ClearArray, Kept, Truthful, Laid, Live, HasData;
    ConsistentHere();
    var p := ChangeReportedHere();
    assert FILE_BITMAP in Live() by { LiveBitmap(); }
    length := FragmentKeepsVolume(G, Image(), Live(), FILE_BITMAP);
    var (result, out) := Fragment(G, Image(), FILE_BITMAP).value;
    KeptStale(G, Image(), Live(), p.record, result, out, length);
  }

  lemma LiveBitmap()
    ensures FILE_BITMAP in Live()
  {
  }

  lemma KeptStale(g: Geometry, image: Bytes, v: View, record: Bytes, result: Bytes, out: Outcome, length: nat)
    requires Sane(g) && HasData(v, 0) && HasData(v, FILE_BITMAP) && Movable(v, FILE_BITMAP, DataAt(v, FILE_BITMAP))
    requires Kept(g, image, v, FILE_BITMAP, record, result, out, length)
    ensures var w := VolumeAfter(v, FILE_BITMAP, length, out.newLcn); Laid(g, result, w) && !Truthful(g, result, w)
  {
    hide Laid, Truthful, SameContents, OtherRecordsKept, HeadKept, SameElsewhere, Record, Movable, HasData;
  }
}
