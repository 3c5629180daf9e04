/** What a successful ensure_fragmented_data leaves of a consistent volume. */
module VolumeKept {
  import opened Bytes
  import opened Arithmetic
  import opened Runlist
  import opened Streams
  import opened FixtureRecords
  import opened FixtureImage
  import opened Bitmap
  import opened Volumes
  import opened Fragmentation
  import PairReplacement
  import MS = MultiSector
  import FR = FileRecords
  import RecordStore

  // ---------- the volume ----------

  function ChainOf(g: Geometry, image: Bytes, n: nat): Result<seq<Attr>>
    requires Sane(g)
  {
    match Record(g, image, n)
    case Err => Err
    case Ok(record) => Chain(record, First(record))
  }

  /** The view lists the attributes the image holds for its live records. */
  ghost predicate IsView(g: Geometry, image: Bytes, v: View)
    requires Sane(g)
  {
    forall n :: n in v ==> ChainOf(g, image, n) == Ok(v[n])
  }

  predicate HasData(v: View, n: nat) {
    n in v && DataIndex(v[n]).Some?
  }

  function DataAt(v: View, n: nat): (t: nat)
    requires HasData(v, n)
    ensures t < |v[n]|
  {
    DataIndex(v[n]).value
  }

  function Data(v: View, n: nat): Attr
    requires HasData(v, n)
  {
    v[n][DataAt(v, n)]
  }

  /** The bitmap marks exactly the clusters some live attribute maps. */
  ghost predicate Truthful(g: Geometry, image: Bytes, v: View) {
    && HasData(v, FILE_BITMAP)
    && forall c: nat :: c < g.totalClusters ==> BitOf(g, image, Data(v, FILE_BITMAP), c) == Ok(Owned(v, c))
  }

  /** Everything but the bitmap's word: record zero where the boot sector says, readable live
      records, runs inside the volume, no cluster shared. */
  ghost predicate Laid(g: Geometry, image: Bytes, v: View) {
    && Sane(g) && Whole(g, image) && 0 in v && FILE_BITMAP in v
    && IsView(g, image, v) && Volumes.Sound(v, g.totalClusters) && Disjoint(v)
    && RecordOffset(g, image, 0) == Ok(Span(g.mftLcn, g.clusterSize))
  }

  ghost predicate Consistent(g: Geometry, image: Bytes, v: View) {
    Laid(g, image, v) && Truthful(g, image, v)
  }

  // ---------- reading one byte ----------

  lemma ByteRead(g: Geometry, image: Bytes, a: Attr, x: nat)
    requires a.body.nonresident && ContiguousAttr(a) && x < a.body.dataSize
    ensures var p, r := Locate(a.body.runs, g.clusterSize, x), StreamBytes(g, image, a, x, 1);
            r == if Readable(image, p) then Ok([ByteAt(image, p)]) else Err
  {
    hide Locate, SegmentsFrom, ReadFrom, Gathered;
    var runs, cs := a.body.runs, g.clusterSize;
    GatheredIsRead(image, runs, cs, x, x + 1);
    ReadMeaning(image, runs, a.body.lowestVcn, cs, x, x + 1);
    var r := ReadFrom(image, runs, cs, x, x + 1);
    assert AllReadable(image, runs, cs, x, x + 1) <==> Readable(image, Locate(runs, cs, x));
    if r.Ok? {
      assert r.value[x - x] == ByteAt(image, Locate(runs, cs, x));
      assert r.value == [ByteAt(image, Locate(runs, cs, x))];
    }
  }

  lemma AllRead(g: Geometry, image: Bytes, a: Attr, n: nat, s: Bytes, x: nat)
    requires ContiguousAttr(a) && x < n && StreamBytes(g, image, a, 0, n) == Ok(s)
    ensures a.body.nonresident && n <= a.body.dataSize && |s| == n
    ensures var p := Locate(a.body.runs, g.clusterSize, x); Readable(image, p) && s[x] == ByteAt(image, p)
  {
    hide Locate, SegmentsFrom, ReadFrom, Gathered;
    GatheredIsRead(image, a.body.runs, g.clusterSize, 0, n);
    ReadMeaning(image, a.body.runs, a.body.lowestVcn, g.clusterSize, 0, n);
    assert s[x - 0] == ByteAt(image, Locate(a.body.runs, g.clusterSize, x));
  }

  lemma BitMeaning(g: Geometry, image: Bytes, a: Attr, c: nat)
    requires ContiguousAttr(a)
    ensures var p := Locate(a.body.runs, g.clusterSize, c / 8);
            BitOf(g, image, a, c)
            == if a.body.nonresident && c / 8 < a.body.dataSize && Readable(image, p)
               then Ok(Test(ByteAt(image, p), c % 8)) else Err
  {
    hide Locate, SegmentsFrom, Gathered, Test;
    if a.body.nonresident && c / 8 < a.body.dataSize {
      ByteRead(g, image, a, c / 8);
    }
  }

  /** A bit is what it was where the byte that holds it is. */
  lemma BitFrame(g: Geometry, a: Attr, image: Bytes, result: Bytes, c: nat)
    requires ContiguousAttr(a) && |result| == |image|
    requires var p := Locate(a.body.runs, g.clusterSize, c / 8);
             p.At? && p.device < |image| ==> result[p.device] == image[p.device]
    ensures BitOf(g, result, a, c) == BitOf(g, image, a, c)
  {
    hide Locate, BitOf, Test;
    BitMeaning(g, image, a, c);
    BitMeaning(g, result, a, c);
  }

  // ---------- writing one bit ----------

  /** Where the bit's byte lies, and the one byte the write changes. */
  lemma BitPlace(g: Geometry, image: Bytes, a: Attr, bit: nat, value: bool)
    requires ContiguousAttr(a) && BitWritten(g, image, a, bit, value).Ok?
    ensures var p, r := Locate(a.body.runs, g.clusterSize, bit / 8), BitWritten(g, image, a, bit, value).value;
            && p.At? && p.device < |image| && a.body.nonresident && bit / 8 < a.body.dataSize
            && Test(image[p.device], bit % 8) != value
            && r == Put(image, p.device, [Flipped(image[p.device], bit % 8)])
  {
    hide Locate, SegmentsFrom, Gathered, Test, Flipped;
    ByteRead(g, image, a, bit / 8);
    var segments := Segments(g, a, bit / 8, 1).value;
    var at := segments[0].disk.value;
    assert segments == [Segment(Some(at), 1)] by { OneAmount(a.body.runs, g.clusterSize, bit / 8); }
    OneSegment(a.body.runs, a.body.lowestVcn, g.clusterSize, bit / 8, 1, at);
    assert Locate(a.body.runs, g.clusterSize, bit / 8) == At(at);
  }

  lemma {:induction false} OneAmount(runs: seq<Run>, cs: nat, cursor: nat)
    requires SegmentsFrom(runs, cs, cursor, 1).Ok? && |SegmentsFrom(runs, cs, cursor, 1).value| == 1
    ensures SegmentsFrom(runs, cs, cursor, 1).value[0].amount == 1
  {
    hide Span;
    var run := runs[0];
    if cursor >= Span(run.vcn + run.length, cs) { OneAmount(runs[1..], cs, cursor); }
  }

  /** The write sets that bit and no other. */
  lemma BitsAfter(g: Geometry, image: Bytes, a: Attr, bit: nat, value: bool, c: nat)
    requires ContiguousAttr(a) && Injective(a.body.runs, g.clusterSize) && BitWritten(g, image, a, bit, value).Ok?
    ensures BitOf(g, BitWritten(g, image, a, bit, value).value, a, c)
         == if c == bit then Ok(value) else BitOf(g, image, a, c)
  {
    hide Locate, BitOf, BitWritten, Test, Flipped;
    var r := BitWritten(g, image, a, bit, value).value;
    var runs, cs := a.body.runs, g.clusterSize;
    BitPlace(g, image, a, bit, value);
    BitMeaning(g, image, a, c);
    BitMeaning(g, r, a, c);
    if c / 8 == bit / 8 {
      FlippedBits(image[Locate(runs, cs, c / 8).device], bit % 8, c % 8);
    } else {
      assert Locate(runs, cs, c / 8).At? ==> Locate(runs, cs, c / 8) != Locate(runs, cs, bit / 8);
    }
  }

  // ---------- where records lie ----------

  lemma ViewData(g: Geometry, image: Bytes, v: View, n: nat)
    requires Sane(g) && IsView(g, image, v) && n in v
    ensures Record(g, image, n).Ok?
    ensures DataOf(Record(g, image, n).value) == if HasData(v, n) then Ok(Data(v, n)) else Err
  {
    hide Record, Chain, FindFrom;
    assert ChainOf(g, image, n) == Ok(v[n]);
    var record := Record(g, image, n).value;
    FindInChain(record, First(record));
  }

  /** The $MFT's map is that of record zero in the view. */
  lemma MftFound(g: Geometry, image: Bytes, v: View)
    requires Laid(g, image, v)
    ensures HasData(v, 0) && MftData(g, image) == Ok(Data(v, 0))
  {
    hide MS.Decode, FindFrom, Chain;
    ViewData(g, image, v, 0);
  }

  function Mft(v: View): seq<Run>
    requires HasData(v, 0)
  {
    Data(v, 0).body.runs
  }

  /** Every live record lies in one stretch of the device, at the places of the $MFT's map. */
  lemma RecordPlace(g: Geometry, image: Bytes, v: View, n: nat) returns (at: nat)
    requires Laid(g, image, v) && n in v
    ensures HasData(v, 0) && RecordOffset(g, image, n) == Ok(at) && at + g.recordSize <= |image|
    ensures Span(n + 1, g.recordSize) <= Data(v, 0).body.dataSize && Data(v, 0).body.nonresident
    ensures forall x :: Span(n, g.recordSize) <= x < Span(n + 1, g.recordSize) ==>
              Locate(Mft(v), g.clusterSize, x) == At(at + (x - Span(n, g.recordSize)))
  {
    hide MS.Decode, MftData, Chain, SegmentsFrom, Locate;
    MftFound(g, image, v);
    ViewData(g, image, v, n);
    at := RecordOffset(g, image, n).value;
    var a, lo := Data(v, 0), Span(n, g.recordSize);
    assert ContiguousAttr(v[0][DataAt(v, 0)]);
    var s := SegmentsFrom(a.body.runs, g.clusterSize, lo, g.recordSize).value;
    assert s == [Segment(Some(at), g.recordSize)];
    OneSegment(a.body.runs, a.body.lowestVcn, g.clusterSize, lo, g.recordSize, at);
  }

  lemma SliceKept(image: Bytes, result: Bytes, at: nat, n: nat)
    requires Agree(image, result, at, at + n)
    ensures Slice(result, at, n) == Slice(image, at, n)
  {
    SameSlice(image, result, at, at + n);
  }

  /** Record zero's place holds the same bytes. */
  predicate ZeroKept(g: Geometry, image: Bytes, result: Bytes) {
    Agree(image, result, Span(g.mftLcn, g.clusterSize), Span(g.mftLcn, g.clusterSize) + g.recordSize)
  }

  /** Record offsets depend on record zero alone. */
  lemma OffsetsKept(g: Geometry, image: Bytes, result: Bytes, n: nat)
    requires Sane(g) && ZeroKept(g, image, result)
    ensures RecordOffset(g, result, n) == RecordOffset(g, image, n)
  {
    hide MS.Decode, FindFrom, Segments, Slice;
    SliceKept(image, result, Span(g.mftLcn, g.clusterSize), g.recordSize);
  }

  lemma RecordKept(g: Geometry, image: Bytes, result: Bytes, n: nat, at: nat)
    requires Sane(g) && ZeroKept(g, image, result)
    requires RecordOffset(g, image, n) == Ok(at) && Agree(image, result, at, at + g.recordSize)
    ensures RecordOffset(g, result, n) == Ok(at) && Record(g, result, n) == Record(g, image, n)
  {
    hide RecordOffset, MS.Decode, Slice;
    OffsetsKept(g, image, result, n);
    SliceKept(image, result, at, g.recordSize);
  }

  // ---------- the cluster copy and the two bits ----------

  /** The target is free and the bitmap attribute is the view's. */
  ghost predicate Aimed(g: Geometry, image: Bytes, v: View, t: Target) {
    && Sane(g) && Whole(g, image) && Disjoint(v) && HasData(v, FILE_BITMAP) && ContiguousAttr(Data(v, FILE_BITMAP))
    && t.bitmap == Data(v, FILE_BITMAP) && t.to < g.totalClusters && !Owned(v, t.to)
  }

  predicate InCluster(g: Geometry, c: nat, y: int) {
    Span(c, g.clusterSize) <= y < Span(c, g.clusterSize) + g.clusterSize
  }

  /** The byte a relocation puts at y when y holds neither of the two bits. */
  function CopiedByte(g: Geometry, image: Bytes, t: Target, y: nat): byte
    requires y < |image| && Span(t.from, g.clusterSize) + g.clusterSize <= |image|
  {
    if InCluster(g, t.to, y) then image[y - Span(t.to, g.clusterSize) + Span(t.from, g.clusterSize)] else image[y]
  }

  lemma CopiedBytes(g: Geometry, image: Bytes, t: Target, y: nat)
    requires Sane(g) && Whole(g, image) && t.to < g.totalClusters && Copied(g, image, t).Ok? && y < |image|
    ensures Span(t.from, g.clusterSize) + g.clusterSize <= |image|
    ensures Copied(g, image, t).value[y] == CopiedByte(g, image, t, y)
  {
    hide Span;
    ClusterFits(g, image, t.to);
  }

  lemma RelocatedByte(g: Geometry, image: Bytes, v: View, t: Target, y: nat)
    requires Aimed(g, image, v, t) && Relocated(g, image, t).Ok? && y < |image|
    requires Locate(t.bitmap.body.runs, g.clusterSize, t.to / 8) != At(y)
    requires Locate(t.bitmap.body.runs, g.clusterSize, t.from / 8) != At(y)
    ensures Span(t.from, g.clusterSize) + g.clusterSize <= |image|
    ensures Relocated(g, image, t).value[y] == CopiedByte(g, image, t, y)
  {
    hide Locate, BitWritten, Copied, Disjoint, Owned, Test, Flipped, CopiedByte;
    var copied := Copied(g, image, t).value;
    CopiedBytes(g, image, t, y);
    var marked := BitWritten(g, copied, t.bitmap, t.to, true).value;
    BitPlace(g, copied, t.bitmap, t.to, true);
    BitPlace(g, marked, t.bitmap, t.from, false);
  }

  /** A byte of any attribute but the bitmap's stays as it was. */
  lemma PlaceKept(g: Geometry, image: Bytes, v: View, t: Target, n: nat, k: nat, x: nat)
    requires Aimed(g, image, v, t) && Relocated(g, image, t).Ok? && n in v && k < |v[n]|
    requires n != FILE_BITMAP || k != DataAt(v, FILE_BITMAP)
    requires var p := Locate(v[n][k].body.runs, g.clusterSize, x); p.At? && p.device < |image|
    ensures var y := Locate(v[n][k].body.runs, g.clusterSize, x).device; Relocated(g, image, t).value[y] == image[y]
  {
    hide Locate, Relocated, Disjoint, Owned, Span;
    var cs, y, b := g.clusterSize, Locate(v[n][k].body.runs, g.clusterSize, x).device, DataAt(v, FILE_BITMAP);
    if Locate(t.bitmap.body.runs, cs, t.to / 8) == At(y) { PlacesApart(v, cs, n, k, x, FILE_BITMAP, b, t.to / 8); }
    if Locate(t.bitmap.body.runs, cs, t.from / 8) == At(y) { PlacesApart(v, cs, n, k, x, FILE_BITMAP, b, t.from / 8); }
    FreePlace(v, cs, n, k, x, t.to);
    RelocatedByte(g, image, v, t, y);
  }

  /** The new cluster holds a copy of the old one. */
  lemma ClusterCopied(g: Geometry, image: Bytes, v: View, t: Target, y: nat)
    requires Aimed(g, image, v, t) && Relocated(g, image, t).Ok? && y < |image| && InCluster(g, t.to, y)
    ensures Span(t.from, g.clusterSize) + g.clusterSize <= |image|
    ensures Relocated(g, image, t).value[y] == image[y - Span(t.to, g.clusterSize) + Span(t.from, g.clusterSize)]
  {
    hide Locate, Relocated, Disjoint, Owned, Span;
    var cs, b := g.clusterSize, DataAt(v, FILE_BITMAP);
    if Locate(t.bitmap.body.runs, cs, t.to / 8) == At(y) { FreePlace(v, cs, FILE_BITMAP, b, t.to / 8, t.to); }
    if Locate(t.bitmap.body.runs, cs, t.from / 8) == At(y) { FreePlace(v, cs, FILE_BITMAP, b, t.from / 8, t.to); }
    RelocatedByte(g, image, v, t, y);
  }

  /** Exactly the two bits change. */
  lemma BitsRelocated(g: Geometry, image: Bytes, v: View, t: Target, c: nat)
    requires Aimed(g, image, v, t) && Relocated(g, image, t).Ok?
    ensures BitOf(g, Relocated(g, image, t).value, t.bitmap, c)
         == if c == t.from then Ok(false) else if c == t.to then Ok(true) else BitOf(g, image, t.bitmap, c)
  {
    hide Locate, BitWritten, BitOf, Copied, Disjoint, Owned, Span, CopiedByte;
    var copied, cs, b := Copied(g, image, t).value, g.clusterSize, DataAt(v, FILE_BITMAP);
    var marked := BitWritten(g, copied, t.bitmap, t.to, true).value;
    AttrInjective(v, cs, FILE_BITMAP, b);
    BitsAfter(g, copied, t.bitmap, t.to, true, c);
    BitsAfter(g, marked, t.bitmap, t.from, false, c);
    var p := Locate(t.bitmap.body.runs, cs, c / 8);
    if p.At? && p.device < |image| {
      FreePlace(v, cs, FILE_BITMAP, b, c / 8, t.to);
      CopiedBytes(g, image, t, p.device);
      Uncopied(g, image, t, p.device);
    }
    BitFrame(g, t.bitmap, image, copied, c);
  }

  lemma Uncopied(g: Geometry, image: Bytes, t: Target, y: nat)
    requires y < |image| && Span(t.from, g.clusterSize) + g.clusterSize <= |image| && !InCluster(g, t.to, y)
    ensures CopiedByte(g, image, t, y) == image[y]
  {
  }

  // ---------- the record write ----------

  /** Bytes of any attribute but the $MFT's are outside every record. */
  lemma OutsideRecords(g: Geometry, image: Bytes, v: View, m: nat, at: nat, n: nat, k: nat, x: nat)
    requires Laid(g, image, v) && m in v && RecordOffset(g, image, m) == Ok(at) && n in v && k < |v[n]|
    requires HasData(v, 0) && (n != 0 || k != DataAt(v, 0)) && Locate(v[n][k].body.runs, g.clusterSize, x).At?
    ensures var y := Locate(v[n][k].body.runs, g.clusterSize, x).device; !(at <= y < at + g.recordSize)
  {
    hide Locate, IsView, RecordOffset, Disjoint, Span, Volumes.Sound;
    var y := Locate(v[n][k].body.runs, g.clusterSize, x).device;
    var same := RecordPlace(g, image, v, m);
    SpanOne(m, g.recordSize);
    if at <= y < at + g.recordSize {
      var z := Span(m, g.recordSize) + (y - at);
      assert Locate(Mft(v), g.clusterSize, z) == At(y);
      PlacesApart(v, g.clusterSize, n, k, x, 0, DataAt(v, 0), z);
    }
  }

  /** Distinct live records share no byte. */
  lemma RecordsApart(g: Geometry, image: Bytes, v: View, m: nat, n: nat, a: nat, b: nat)
    requires Laid(g, image, v) && m in v && n in v && m != n
    requires RecordOffset(g, image, m) == Ok(a) && RecordOffset(g, image, n) == Ok(b)
    ensures a + g.recordSize <= b || b + g.recordSize <= a
  {
    hide Locate, IsView, RecordOffset, Disjoint, Span, Injective;
    var rs := g.recordSize;
    var _ := RecordPlace(g, image, v, m);
    var _ := RecordPlace(g, image, v, n);
    SpanOne(m, rs);
    SpanOne(n, rs);
    SpanMono(if m < n then m + 1 else n + 1, if m < n then n else m, rs);
    assert ContiguousAttr(v[0][DataAt(v, 0)]);
    AttrInjective(v, g.clusterSize, 0, DataAt(v, 0));
    var y := if a < b then b else a;
    if y < a + rs && y < b + rs {
      OneStreamByte(Mft(v), g.clusterSize, Span(m, rs) + (y - a), Span(n, rs) + (y - b), y);
    }
  }

  lemma OneStreamByte(runs: seq<Run>, cs: nat, x: nat, z: nat, y: nat)
    requires Injective(runs, cs) && Locate(runs, cs, x) == At(y) && Locate(runs, cs, z) == At(y)
    ensures x == z
  {
    hide Locate;
  }

  /** No record overlaps a cluster nobody owns. */
  lemma RecordOffCluster(g: Geometry, image: Bytes, v: View, m: nat, at: nat, c: nat, y: nat)
    requires Laid(g, image, v) && m in v && RecordOffset(g, image, m) == Ok(at) && !Owned(v, c) && InCluster(g, c, y)
    ensures !(at <= y < at + g.recordSize)
  {
    hide Locate, IsView, RecordOffset, Disjoint, Span, Owned;
    var _ := RecordPlace(g, image, v, m);
    SpanOne(m, g.recordSize);
    if at <= y < at + g.recordSize {
      var z := Span(m, g.recordSize) + (y - at);
      assert Locate(Mft(v), g.clusterSize, z) == At(y);
      FreePlace(v, g.clusterSize, 0, DataAt(v, 0), z, c);
    }
  }

  // ---------- a run of the operation ----------

  /** The fixup array lies between the fixed header and the attributes, off every trailer. */
  ghost predicate ClearArray(g: Geometry, record: Bytes) {
    && MS.Protectable(record, g.sectorSize, RecordStore.FILE) && |record| >= 28
    && 28 <= U16(record, 4) && U16(record, 4) + 2 * U16(record, 6) <= First(record)
  }

  /** What is known once the operation has chosen its target on a consistent volume. */
  ghost predicate Chosen(g: Geometry, image: Bytes, v: View, inode: nat, p: Prep, t: Target) {
    && Consistent(g, image, v) && inode in v && Prepared(g, image, inode) == Ok(p)
    && |p.data.body.runs| == 1 && p.data.body.runs[0].length >= 2 && p.data.body.runs[0].lcn.Some?
    && Targeted(g, image, p.data.body.runs[0]) == Ok(t)
  }

  lemma TargetIsFree(g: Geometry, image: Bytes, v: View, run: Run, t: Target)
    requires Consistent(g, image, v) && run.lcn.Some? && run.length >= 2 && Targeted(g, image, run) == Ok(t)
    ensures Aimed(g, image, v, t)
  {
    hide Record, DataOf, BitOf, StreamBytes, Locate, Test, Nearest, Owned, Disjoint, IsView;
    ViewData(g, image, v, FILE_BITMAP);
    var n := (g.totalClusters + 7) / 8;
    var bits := StreamBytes(g, image, t.bitmap, 0, n).value;
    assert ContiguousAttr(v[FILE_BITMAP][DataAt(v, FILE_BITMAP)]);
    assert IsNearest(bits, t.from, g.totalClusters, t.to);
    AllRead(g, image, t.bitmap, n, bits, t.to / 8);
    BitMeaning(g, image, t.bitmap, t.to);
    assert BitOf(g, image, t.bitmap, t.to) == Ok(false);
  }

  lemma ChosenFacts(g: Geometry, image: Bytes, v: View, inode: nat, p: Prep, t: Target)
    requires Chosen(g, image, v, inode, p, t)
    ensures HasData(v, inode) && p.data == Data(v, inode) && Record(g, image, inode) == Ok(p.record)
    ensures Movable(v, inode, DataAt(v, inode)) && t.from == Last(v, inode, DataAt(v, inode))
    ensures PairReplacement.Ordinary(p.data) && Aimed(g, image, v, t)
    ensures Chain(p.record, First(p.record)) == Ok(v[inode])
    ensures StreamBytes(g, image, p.data, 0, p.data.body.dataSize) == Ok(p.content)
  {
    hide Record, BitOf, StreamBytes, Chain, Targeted, Truthful, Disjoint;
    ViewData(g, image, v, inode);
    assert p.data.body.runs[0].lcn.Some?;
    TargetIsFree(g, image, v, p.data.body.runs[0], t);
    assert ChainOf(g, image, inode) == Ok(v[inode]);
  }

  /** The copy and the bits leave every record alone. */
  lemma RecordThroughMove(g: Geometry, image: Bytes, v: View, t: Target, n: nat) returns (at: nat)
    requires Laid(g, image, v) && Aimed(g, image, v, t) && Relocated(g, image, t).Ok? && n in v
    ensures RecordOffset(g, image, n) == Ok(at) && Agree(image, Relocated(g, image, t).value, at, at + g.recordSize)
  {
    hide Locate, IsView, RecordOffset, Disjoint, Span, Relocated, Owned, Volumes.Sound;
    at := RecordPlace(g, image, v, n);
    SpanOne(n, g.recordSize);
    forall y | at <= y < at + g.recordSize ensures Relocated(g, image, t).value[y] == image[y] {
      var z := Span(n, g.recordSize) + (y - at);
      assert Locate(Mft(v), g.clusterSize, z) == At(y);
      PlaceKept(g, image, v, t, 0, DataAt(v, 0), z);
    }
  }

  /** The record write lands on the record's own place. */
  lemma StoredAt(g: Geometry, image: Bytes, v: View, t: Target, inode: nat, edited: Bytes) returns (at: nat)
    requires Laid(g, image, v) && Aimed(g, image, v, t) && Relocated(g, image, t).Ok? && inode in v
    requires |edited| == g.recordSize && Stored(g, Relocated(g, image, t).value, inode, edited).Ok?
    ensures RecordOffset(g, image, inode) == Ok(at) && at + g.recordSize <= |image|
    ensures MS.ArrayOk(edited, g.sectorSize)
    ensures Stored(g, Relocated(g, image, t).value, inode, edited).value
         == Put(Relocated(g, image, t).value, at, MS.EncodeArray(edited, g.sectorSize))
  {
    hide IsView, RecordOffset, Disjoint, Span, Relocated, Owned, Volumes.Sound, MS.ArrayOk, MS.EncodeArray, Put;
    at := RecordThroughMove(g, image, v, t, inode);
    var zero := RecordThroughMove(g, image, v, t, 0);
    OffsetsKept(g, image, Relocated(g, image, t).value, inode);
  }

  /** Another live record reads as before. */
  lemma OtherRecordKept(g: Geometry, image: Bytes, v: View, t: Target, inode: nat, edited: Bytes, n: nat)
    requires Laid(g, image, v) && Aimed(g, image, v, t) && Relocated(g, image, t).Ok? && inode in v && inode != 0
    requires |edited| == g.recordSize && Stored(g, Relocated(g, image, t).value, inode, edited).Ok?
    requires n in v && n != inode
    ensures var result := Stored(g, Relocated(g, image, t).value, inode, edited).value;
            && ZeroKept(g, image, result)
            && Record(g, result, n) == Record(g, image, n)
  {
    hide IsView, RecordOffset, Record, Disjoint, Span, Relocated, Owned, Volumes.Sound, MS.ArrayOk, MS.EncodeArray,
         Stored;
    var m := Relocated(g, image, t).value;
    var result := Stored(g, m, inode, edited).value;
    var at := StoredAt(g, image, v, t, inode, edited);
    var zero := RecordThroughMove(g, image, v, t, 0);
    var own := RecordThroughMove(g, image, v, t, n);
    RecordsApart(g, image, v, 0, inode, zero, at);
    RecordsApart(g, image, v, n, inode, own, at);
    RecordKept(g, image, result, n, own);
  }

  // ---------- the edited record ----------

  /** Ahead of the attribute's pairs nothing changes outside the fixup array, the used-bytes
      field and the attribute's length field. */
  predicate HeadKept(record: Bytes, after: Bytes, x: Attr) {
    && |after| == |record| >= 28 && Pairs(x) <= |record|
    && forall j :: 0 <= j < Pairs(x) && !MS.InArray(record, j) && !(24 <= j < 28) && !PairReplacement.InLength(x, j) ==>
         after[j] == record[j]
  }

  /** Storing the edited record and reading it back gives the chain with the new runs. */
  lemma EditedReadsBack(g: Geometry, record: Bytes, edited: Bytes, raw: Bytes, t: nat, runs: seq<Run>)
    returns (length: nat)
    requires Sane(g) && |record| == g.recordSize && ClearArray(g, record)
    requires Chain(record, First(record)).Ok? && t < |Chain(record, First(record)).value|
    requires var x := Chain(record, First(record)).value[t];
             PairReplacement.Ordinary(x) && DataOf(record) == Ok(x) && Rewritten(record, x, runs) == Ok(edited)
    requires runs != [] && MS.ArrayOk(edited, g.sectorSize) && raw == MS.EncodeArray(edited, g.sectorSize)
    ensures var chain := Chain(record, First(record)).value;
            var x, r := chain[t], MS.Decode(raw, g.sectorSize, RecordStore.FILE);
            && r.Ok? && x.length <= length && HeadKept(record, r.value, x)
            && Chain(r.value, First(r.value)) == Ok(chain[t := Attr(x.offset, length, x.body.(runs := runs))])
  {
    hide Chain, FindFrom, EncodePairs, Replaced, MS.Decode, MS.EncodeArray, MS.ArrayFree, MS.ArrayOk, U32;
    var x := Chain(record, First(record)).value[t];
    var encoded := EncodePairs(runs, x.body.lowestVcn, 0).value;
    PairReplacement.ChainAt(record, First(record), t);
    length := PairReplacement.ReplacedChain(record, t, encoded, runs);
    HeaderCarries(g, record, edited);
    MS.RoundTrip(edited, g.sectorSize, RecordStore.FILE);
    var r := MS.Decode(raw, g.sectorSize, RecordStore.FILE).value;
    assert First(r) == First(edited) by {
      assert r[20] == edited[20] && r[21] == edited[21];
    }
    PairReplacement.ChainAgrees(edited, r, First(edited));
  }

  /** The edit keeps the header words the fixup code reads. */
  lemma HeaderCarries(g: Geometry, record: Bytes, edited: Bytes)
    requires Sane(g) && ClearArray(g, record) && |edited| == |record| && MS.ArrayOk(edited, g.sectorSize)
    requires First(record) <= |record|
    requires forall j :: 0 <= j < First(record) && !(24 <= j < 28) ==> edited[j] == record[j]
    ensures MS.Protectable(edited, g.sectorSize, RecordStore.FILE) && First(edited) == First(record)
    ensures U16(edited, 4) == U16(record, 4) && U16(edited, 6) == U16(record, 6)
    ensures U16(record, 4) + 2 <= First(record) && MS.EditKeepsFrame(record, edited)
  {
    hide MS.ArrayFree;
    var uo := U16(record, 4);
    assert edited[..4] == record[..4];
    assert edited[..8] == record[..8];
    assert edited[uo..uo + 2] == record[uo..uo + 2];
  }

  // ---------- the $MFT itself ----------

  /** Rewriting record zero changes its sequence number, so the $MFT's content cannot
      survive the final comparison. */
  lemma SequenceMoves(g: Geometry, raw: Bytes, record: Bytes, edited: Bytes)
    requires Sane(g) && |raw| == g.recordSize && MS.Decode(raw, g.sectorSize, RecordStore.FILE) == Ok(record)
    requires ClearArray(g, record) && |edited| == |record| && MS.ArrayOk(edited, g.sectorSize)
    requires First(record) <= |record|
    requires forall j :: 0 <= j < First(record) && !(24 <= j < 28) ==> edited[j] == record[j]
    ensures var e, ss := MS.EncodeArray(edited, g.sectorSize), g.sectorSize;
            e[ss - 2] != raw[ss - 2] || e[ss - 1] != raw[ss - 1]
  {
    hide MS.DecodeUpTo, MS.EncodeUpTo, MS.ArrayFree, MS.NextStamp;
    var ss := g.sectorSize;
    var n, e := |raw| / ss, MS.EncodeArray(edited, ss);
    HeaderCarries(g, record, edited);
    RawHeader(g, raw, record);
    var uo := U16(record, 4);
    MS.StampChanges(record, edited);
    assert n >= 1 by { if n == 0 { DivModIs(|raw|, ss); } }
    MS.AcceptedTrailer(raw, ss, RecordStore.FILE, 1);
    MS.SpanOfLength(|edited|, ss);
    MS.StampInTrailer(edited, ss, uo, MS.NextStamp(edited), n, 1);
    assert MS.Tail(1, ss) == ss - 2 by { assert Span(1, ss) == Span(0, ss) + ss; }
    assert raw[ss - 2..ss] == record[uo..uo + 2];
    assert e[ss - 2..ss] == MS.NextStamp(edited);
    assert raw[ss - 2..ss] == [raw[ss - 2], raw[ss - 1]] && e[ss - 2..ss] == [e[ss - 2], e[ss - 1]];
  }

  lemma RawHeader(g: Geometry, raw: Bytes, record: Bytes)
    requires Sane(g) && |raw| == g.recordSize && MS.Decode(raw, g.sectorSize, RecordStore.FILE) == Ok(record)
    requires ClearArray(g, record)
    ensures |raw| >= 8 && U16(raw, 4) == U16(record, 4) && U16(raw, 4) + 2 <= |raw|
    ensures raw[U16(raw, 4)..U16(raw, 4) + 2] == record[U16(raw, 4)..U16(raw, 4) + 2]
  {
    var ss := g.sectorSize;
    var n := |raw| / ss;
    MS.SpanOfLength(|raw|, ss);
    forall j | 0 <= j < 8 ensures record[j] == raw[j] {
      MS.HeaderFree(j, ss, n);
      MS.DecodeElse(raw, ss, U16(raw, 4), n, n, j);
    }
    assert U16(raw, 4) == U16(record, 4);
    MS.DecodedHeader(raw, record, ss, RecordStore.FILE);
  }

  lemma {:induction false} EmptyRequest(runs: seq<Run>, cs: nat, x: nat)
    requires SegmentsFrom(runs, cs, x, 0).Ok?
    ensures var s := SegmentsFrom(runs, cs, x, 0).value; |s| == 1 && s[0].amount == 0
  {
    hide Span;
    var run := runs[0];
    if x >= Span(run.vcn + run.length, cs) { EmptyRequest(runs[1..], cs, x); }
  }

  lemma ReadLength(g: Geometry, image: Bytes, a: Attr, n: nat, s: Bytes)
    requires StreamBytes(g, image, a, 0, n) == Ok(s)
    ensures |s| == n
  {
    hide SegmentsFrom, ReadFrom, Gathered;
    var segments := SegmentsFrom(a.body.runs, g.clusterSize, 0, n).value;
    if n == 0 {
      EmptyRequest(a.body.runs, g.clusterSize, 0);
      assert segments == [segments[0]];
      OneGathered(image, segments[0]);
    } else {
      GatheredIsRead(image, a.body.runs, g.clusterSize, 0, n);
    }
  }

  lemma FoundContiguous(record: Bytes, offset: nat)
    requires FindFrom(record, offset, FR.AT_DATA, []).Ok?
    ensures ContiguousAttr(FindFrom(record, offset, FR.AT_DATA, []).value)
    decreases |record| - offset
  {
    hide AttrAt, Is, U32, SoundBody, ContiguousAttr;
    var a := AttrAt(record, offset).value;
    if Is(a, FR.AT_DATA, []) {
      AttrContiguous(record, offset);
    } else {
      FoundContiguous(record, offset + a.length);
    }
  }

  lemma AttrContiguous(record: Bytes, offset: nat)
    requires AttrAt(record, offset).Ok?
    ensures ContiguousAttr(AttrAt(record, offset).value)
  {
    hide U32, U16, U64, DecodePairs, Contiguous;
    var a := AttrAt(record, offset).value;
    var s := record[offset..offset + a.length];
    if a.body.nonresident {
      DecodedContiguous(s[a.body.mapping..], a.body.lowestVcn, 0);
    } else {
      NoneContiguous(a.body.lowestVcn);
    }
  }

  lemma NoneContiguous(vcn: nat)
    ensures Contiguous([], vcn)
  {
  }

  /** The first sector of the $MFT stays where it was. */
  lemma FirstSectorStays(run: Run, to: nat, cs: nat, at: nat, x: nat)
    requires run.length >= 2 && run.lcn.Some? && x < cs
    requires Locate([run], cs, 0) == At(at) && Locate([run], cs, x) == At(at + x)
    ensures Locate(Split(run, to), cs, x) == At(at + x)
  {
    assert [run][1..] == [];
    assert Locate([], cs, 0) == Outside;
    assert at == Span(run.lcn.value, cs);
    var from := run.lcn.value + run.length - 1;
    SpanGrows(run.lcn.value, from, cs);
    LocateSplit(run, to, cs, x);
  }

  /** A byte of the first sector of record zero, as the comparison sees it on both sides. */
  lemma ComparedByte(g: Geometry, image: Bytes, result: Bytes, v: View, p: Prep, a: Attr, to: nat, at: nat, x: nat)
    requires Laid(g, image, v) && HasData(v, 0) && p.data == Data(v, 0) && |result| == |image|
    requires |p.data.body.runs| == 1 && p.data.body.runs[0].length >= 2 && p.data.body.runs[0].lcn.Some?
    requires RecordOffset(g, image, 0) == Ok(at) && x < g.sectorSize
    requires StreamBytes(g, image, p.data, 0, p.data.body.dataSize) == Ok(p.content)
    requires ContiguousAttr(a) && a.body.runs == Split(p.data.body.runs[0], to)
    requires StreamBytes(g, result, a, 0, a.body.dataSize) == Ok(p.content)
    ensures at + x < |image| && result[at + x] == image[at + x]
  {
    hide IsView, RecordOffset, Disjoint, Locate, StreamBytes, Contiguous, Split;
    var runs, run, cs := p.data.body.runs, p.data.body.runs[0], g.clusterSize;
    assert runs == [run];
    var _ := RecordPlace(g, image, v, 0);
    assert Span(0 + 1, g.recordSize) == g.recordSize && Span(0, g.recordSize) == 0;
    assert runs == Mft(v) && x < Span(1, g.recordSize);
    assert Locate(Mft(v), cs, 0) == At(at + (0 - Span(0, g.recordSize)));
    assert Locate(Mft(v), cs, x) == At(at + (x - Span(0, g.recordSize)));
    FirstSectorStays(run, to, cs, at, x);
    assert ContiguousAttr(v[0][DataAt(v, 0)]);
    ReadLength(g, image, p.data, p.data.body.dataSize, p.content);
    ReadLength(g, result, a, a.body.dataSize, p.content);
    AllRead(g, image, p.data, p.data.body.dataSize, p.content, x);
    AllRead(g, result, a, a.body.dataSize, p.content, x);
  }

  /** Asked to fragment the $MFT, the operation never reports a change. */
  lemma MftRefused(g: Geometry, image: Bytes, v: View, p: Prep, t: Target, edited: Bytes)
    requires Chosen(g, image, v, 0, p, t) && ClearArray(g, p.record)
    requires Rewritten(p.record, p.data, Split(p.data.body.runs[0], t.to)) == Ok(edited)
    requires Relocated(g, image, t).Ok? && Stored(g, Relocated(g, image, t).value, 0, edited).Ok?
    ensures !Verified(g, Stored(g, Relocated(g, image, t).value, 0, edited).value, 0, p.content,
        Split(p.data.body.runs[0], t.to), t)
  {
    hide Prepared, Targeted, Relocated, Stored, Truthful, IsView, Disjoint, StreamBytes, BitOf, MS.Decode, MS.ArrayOk,
         MS.EncodeArray, ClearArray, Split, Chain, Replaced, EncodePairs, FindFrom, Movable, RecordOffset;
    ChosenFacts(g, image, v, 0, p, t);
    var runs, x := Split(p.data.body.runs[0], t.to), DataAt(v, 0);
    var result := Stored(g, Relocated(g, image, t).value, 0, edited).value;
    var at := StoredAt(g, image, v, t, 0, edited);
    if Verified(g, result, 0, p.content, runs, t) {
      var after := Record(g, result, 0).value;
      var a := DataOf(after).value;
      FoundContiguous(after, First(after));
      ComparedByte(g, image, result, v, p, a, t.to, at, g.sectorSize - 2);
      ComparedByte(g, image, result, v, p, a, t.to, at, g.sectorSize - 1);
      var raw := image[at..at + g.recordSize];
      EditFrame(g, p.record, x, edited, runs);
      SequenceMoves(g, raw, p.record, edited);
    }
  }

  /** The edit leaves the bytes ahead of the attributes alone, but for the used-bytes field. */
  lemma EditFrame(g: Geometry, record: Bytes, t: nat, edited: Bytes, runs: seq<Run>)
    requires 28 <= |record| <= 65536 && ClearArray(g, record)
    requires Chain(record, First(record)).Ok? && t < |Chain(record, First(record)).value|
    requires var x := Chain(record, First(record)).value[t];
             PairReplacement.Ordinary(x) && DataOf(record) == Ok(x) && Rewritten(record, x, runs) == Ok(edited)
    requires runs != []
    ensures First(record) <= |record| == |edited|
    ensures forall j :: 0 <= j < First(record) && !(24 <= j < 28) ==> edited[j] == record[j]
  {
    hide Chain, FindFrom, EncodePairs, Replaced, U32;
    var x := Chain(record, First(record)).value[t];
    PairReplacement.ChainAt(record, First(record), t);
    var length := PairReplacement.ReplacedChain(record, t, EncodePairs(runs, x.body.lowestVcn, 0).value, runs);
  }

  // ---------- the volume afterwards ----------

  /** A move carried through: the target chosen, the image and the record rewritten. */
  ghost predicate Done(g: Geometry, image: Bytes, v: View, inode: nat, p: Prep, t: Target, edited: Bytes,
      result: Bytes) {
    && Chosen(g, image, v, inode, p, t) && ClearArray(g, p.record)
    && Rewritten(p.record, p.data, Split(p.data.body.runs[0], t.to)) == Ok(edited)
    && Relocated(g, image, t).Ok?
    && Stored(g, Relocated(g, image, t).value, inode, edited) == Ok(result)
  }

  /** The final re-read found nothing wrong. */
  predicate Accepted(g: Geometry, result: Bytes, inode: nat, p: Prep, t: Target)
    requires Sane(g) && |p.data.body.runs| == 1 && p.data.body.runs[0].length >= 2 && p.data.body.runs[0].lcn.Some?
  {
    Verified(g, result, inode, p.content, Split(p.data.body.runs[0], t.to), t)
  }

  /** A reported change is a completed move of some record other than the $MFT's. */
  lemma SuccessIsDone(g: Geometry, image: Bytes, v: View, inode: nat) returns (p: Prep, t: Target, edited: Bytes)
    requires Consistent(g, image, v) && inode in v && Fragment(g, image, inode).Ok?
    requires Fragment(g, image, inode).value.1.changed && ClearArray(g, Prepared(g, image, inode).value.record)
    ensures var r := Fragment(g, image, inode).value;
            && Done(g, image, v, inode, p, t, edited, r.0) && Accepted(g, r.0, inode, p, t) && inode != 0
            && r.1.releasedLcn == t.from && r.1.newLcn == t.to && r.1.runs == Split(p.data.body.runs[0], t.to)
            && r.1.content == p.content
  {
    hide Prepared, Targeted, Rewritten, Relocated, Stored, Verified, Truthful, IsView, Disjoint, Split, ClearArray,
         RoundTrips;
    p := Prepared(g, image, inode).value;
    t := Targeted(g, image, p.data.body.runs[0]).value;
    edited := Rewritten(p.record, p.data, Split(p.data.body.runs[0], t.to)).value;
    if inode == 0 { MftRefused(g, image, v, p, t, edited); }
  }

  function VolumeAfter(v: View, inode: nat, length: nat, to: nat): View
    requires HasData(v, inode) && Movable(v, inode, DataAt(v, inode))
  {
    Moved(v, inode, DataAt(v, inode), length, to)
  }

  lemma OwnRecordMoved(g: Geometry, image: Bytes, v: View, inode: nat, p: Prep, t: Target, edited: Bytes, result: Bytes)
    returns (length: nat)
    requires Done(g, image, v, inode, p, t, edited, result) && inode != 0
    ensures HasData(v, inode) && Movable(v, inode, DataAt(v, inode))
    ensures ChainOf(g, result, inode) == Ok(VolumeAfter(v, inode, length, t.to)[inode])
    ensures Record(g, result, inode).Ok? && HeadKept(p.record, Record(g, result, inode).value, p.data)
    ensures RecordOffset(g, result, 0) == Ok(Span(g.mftLcn, g.clusterSize)) && |result| == |image|
  {
    hide Prepared, Targeted, Rewritten, Relocated, Stored, Verified, Truthful, IsView, Disjoint, ClearArray,
         RecordOffset, MS.Decode, MS.EncodeArray, MS.ArrayOk, Chain, FindFrom, Span, Owned;
    ChosenFacts(g, image, v, inode, p, t);
    var at := StoredAt(g, image, v, t, inode, edited);
    OtherRecordKept(g, image, v, t, inode, edited, 0);
    OffsetsKept(g, image, result, inode);
    OffsetsKept(g, image, result, 0);
    var raw := MS.EncodeArray(edited, g.sectorSize);
    assert Slice(result, at, g.recordSize) == Ok(raw) by { assert result[at..at + g.recordSize] == raw; }
    length := EditedReadsBack(g, p.record, edited, raw, DataAt(v, inode), Split(p.data.body.runs[0], t.to));
  }

  /** Every live record but the moved one decodes to the same bytes. */
  ghost predicate OtherRecordsKept(g: Geometry, image: Bytes, v: View, inode: nat, result: Bytes)
    requires Sane(g)
  {
    forall n :: n in v && n != inode ==> Record(g, result, n) == Record(g, image, n)
  }

  /** Every live record reads as before, but for the moved runs. */
  lemma ViewAfter(g: Geometry, image: Bytes, v: View, inode: nat, p: Prep, t: Target, edited: Bytes, result: Bytes)
    returns (length: nat)
    requires Done(g, image, v, inode, p, t, edited, result) && inode != 0
    ensures HasData(v, inode) && Movable(v, inode, DataAt(v, inode)) && t.from == Last(v, inode, DataAt(v, inode))
    ensures Laid(g, result, VolumeAfter(v, inode, length, t.to))
    ensures Aimed(g, image, v, t) && |result| == |image|
    ensures OtherRecordsKept(g, image, v, inode, result)
    ensures Record(g, result, inode).Ok? && HeadKept(p.record, Record(g, result, inode).value, p.data)
  {
    hide Prepared, Targeted, Rewritten, Relocated, Stored, Verified, Truthful, Disjoint, ClearArray, RecordOffset,
         Record, Chain, Span, Owned, Volumes.Sound, Split, HeadKept;
    ChosenFacts(g, image, v, inode, p, t);
    length := OwnRecordMoved(g, image, v, inode, p, t, edited, result);
    var w := VolumeAfter(v, inode, length, t.to);
    forall n | n in w
      ensures ChainOf(g, result, n) == Ok(w[n]) && (n != inode ==> Record(g, result, n) == Record(g, image, n))
    {
      if n != inode {
        OtherRecordKept(g, image, v, t, inode, edited, n);
        assert ChainOf(g, image, n) == Ok(v[n]);
      }
    }
    DisjointAfter(v, inode, DataAt(v, inode), length, t.to);
    SoundAfter(v, inode, DataAt(v, inode), length, t.to, g.totalClusters);
  }

  /** A byte outside the rewritten record is what the relocation left there. */
  lemma ResultByte(g: Geometry, image: Bytes, v: View, inode: nat, p: Prep, t: Target, edited: Bytes, result: Bytes,
      y: nat)
    returns (at: nat)
    requires Done(g, image, v, inode, p, t, edited, result) && y < |image|
    ensures Laid(g, image, v) && inode in v && RecordOffset(g, image, inode) == Ok(at) && |result| == |image|
    ensures !(at <= y < at + g.recordSize) ==> result[y] == Relocated(g, image, t).value[y]
  {
    hide Prepared, Targeted, Rewritten, Relocated, Stored, Verified, Truthful, Disjoint, ClearArray, RecordOffset,
         Laid, Owned, MS.ArrayOk, MS.EncodeArray;
    ChosenFacts(g, image, v, inode, p, t);
    at := StoredAt(g, image, v, t, inode, edited);
  }

  /** Bits as the old bitmap attribute sees them: the two differ, the rest stand. */
  lemma BitsAtEnd(g: Geometry, image: Bytes, v: View, inode: nat, p: Prep, t: Target, edited: Bytes, result: Bytes,
      c: nat)
    requires Done(g, image, v, inode, p, t, edited, result)
    ensures BitOf(g, result, t.bitmap, c)
         == if c == t.from then Ok(false) else if c == t.to then Ok(true) else BitOf(g, image, t.bitmap, c)
  {
    hide Done, Relocated, BitOf, Locate, Disjoint, Owned, RecordOffset, IsView, Volumes.Sound, Span;
    DoneAim(g, image, v, inode, p, t, edited, result);
    var m, q := Relocated(g, image, t).value, Locate(t.bitmap.body.runs, g.clusterSize, c / 8);
    BitsRelocated(g, image, v, t, c);
    if q.At? && q.device < |image| {
      var at := ResultByte(g, image, v, inode, p, t, edited, result, q.device);
      MftFound(g, image, v);
      OutsideRecords(g, image, v, inode, at, FILE_BITMAP, DataAt(v, FILE_BITMAP), c / 8);
    }
    BitFrame(g, t.bitmap, m, result, c);
  }

  lemma DoneAim(g: Geometry, image: Bytes, v: View, inode: nat, p: Prep, t: Target, edited: Bytes, result: Bytes)
    requires Done(g, image, v, inode, p, t, edited, result)
    ensures Consistent(g, image, v) && Aimed(g, image, v, t) && Relocated(g, image, t).Ok? && |result| == |image|
    ensures inode in v && HasData(v, inode) && p.data == Data(v, inode)
    ensures Movable(v, inode, DataAt(v, inode)) && t.from == Last(v, inode, DataAt(v, inode)) && t.from != t.to
  {
    hide Prepared, Targeted, Rewritten, Relocated, Stored, Verified, Truthful, Disjoint, ClearArray, Laid, MS.ArrayOk,
         MS.EncodeArray;
    ChosenFacts(g, image, v, inode, p, t);
    var at := StoredAt(g, image, v, t, inode, edited);
    assert Volumes.Holds(v, Id(inode, DataAt(v, inode), 0), t.from);
  }

  // ---------- truthfulness ----------

  /** Unless it was the bitmap itself that moved, the bitmap is truthful again. */
  lemma TruthKept(g: Geometry, image: Bytes, v: View, inode: nat, p: Prep, t: Target, edited: Bytes, result: Bytes,
      length: nat)
    requires Done(g, image, v, inode, p, t, edited, result) && inode != FILE_BITMAP
    requires HasData(v, inode) && Movable(v, inode, DataAt(v, inode))
    ensures Truthful(g, result, VolumeAfter(v, inode, length, t.to))
  {
    hide Done, Relocated, BitOf, Disjoint, Owned, Laid;
    DoneAim(g, image, v, inode, p, t, edited, result);
    var w := VolumeAfter(v, inode, length, t.to);
    assert w[FILE_BITMAP] == v[FILE_BITMAP];
    forall c: nat | c < g.totalClusters ensures BitOf(g, result, Data(w, FILE_BITMAP), c) == Ok(Owned(w, c)) {
      BitsAtEnd(g, image, v, inode, p, t, edited, result, c);
      OwnedAfter(v, inode, DataAt(v, inode), length, t.to, c);
    }
  }

  /** When the bitmap itself moved, the comparison forces its content to be the old one,
      which does not mark the cluster it now occupies. */
  lemma BitmapStale(g: Geometry, image: Bytes, v: View, p: Prep, t: Target, edited: Bytes, result: Bytes, length: nat)
    requires Done(g, image, v, FILE_BITMAP, p, t, edited, result) && Accepted(g, result, FILE_BITMAP, p, t)
    requires HasData(v, FILE_BITMAP) && Movable(v, FILE_BITMAP, DataAt(v, FILE_BITMAP))
    requires Laid(g, result, VolumeAfter(v, FILE_BITMAP, length, t.to))
    ensures !Truthful(g, result, VolumeAfter(v, FILE_BITMAP, length, t.to))
  {
    hide Prepared, Targeted, Rewritten, Relocated, Stored, Disjoint, ClearArray, Record, Chain, StreamBytes, BitOf,
         Owned, Locate, FindFrom, Split, Test;
    var w := VolumeAfter(v, FILE_BITMAP, length, t.to);
    DoneAim(g, image, v, FILE_BITMAP, p, t, edited, result);
    ChosenFacts(g, image, v, FILE_BITMAP, p, t);
    ViewData(g, result, w, FILE_BITMAP);
    OwnedAfter(v, FILE_BITMAP, DataAt(v, FILE_BITMAP), length, t.to, t.to);
    var a, x := DataOf(Record(g, result, FILE_BITMAP).value).value, t.to / 8;
    assert HasData(w, FILE_BITMAP) ==> a == Data(w, FILE_BITMAP);
    FoundContiguous(Record(g, result, FILE_BITMAP).value, First(Record(g, result, FILE_BITMAP).value));
    assert ContiguousAttr(p.data);
    assert BitOf(g, image, p.data, t.to) == Ok(false);
    BitMeaning(g, image, p.data, t.to);
    BitMeaning(g, result, a, t.to);
    ReadLength(g, image, p.data, p.data.body.dataSize, p.content);
    ReadLength(g, result, a, a.body.dataSize, p.content);
    AllRead(g, image, p.data, p.data.body.dataSize, p.content, x);
    AllRead(g, result, a, a.body.dataSize, p.content, x);
    assert BitOf(g, result, a, t.to) == Ok(false);
  }

  // ---------- contents ----------

  /** Byte x of an attribute's stream: zero in a hole, nothing past its runs. */
  function StreamByte(g: Geometry, image: Bytes, a: Attr, x: nat): Option<byte> {
    var p := Locate(a.body.runs, g.clusterSize, x);
    if Readable(image, p) then Some(ByteAt(image, p)) else None
  }

  /** The records themselves and the bitmap's bits are accounted for separately. */
  predicate Ordinary(v: View, n: nat, k: nat)
    requires HasData(v, 0) && HasData(v, FILE_BITMAP)
  {
    !(n == 0 && k == DataAt(v, 0)) && !(n == FILE_BITMAP && k == DataAt(v, FILE_BITMAP))
  }

  /** The device byte of an ordinary attribute is untouched. */
  lemma DeviceByteKept(g: Geometry, image: Bytes, v: View, inode: nat, p: Prep, t: Target, edited: Bytes, result: Bytes,
      n: nat, k: nat, x: nat)
    requires Done(g, image, v, inode, p, t, edited, result) && n in v && k < |v[n]|
    requires HasData(v, 0) && HasData(v, FILE_BITMAP) && Ordinary(v, n, k)
    requires var q := Locate(v[n][k].body.runs, g.clusterSize, x); q.At? && q.device < |image|
    ensures |result| == |image|
    ensures var y := Locate(v[n][k].body.runs, g.clusterSize, x).device; result[y] == image[y]
  {
    hide Done, Relocated, Locate, Disjoint, Owned, RecordOffset, IsView, Volumes.Sound, Truthful;
    DoneAim(g, image, v, inode, p, t, edited, result);
    var y := Locate(v[n][k].body.runs, g.clusterSize, x).device;
    var at := ResultByte(g, image, v, inode, p, t, edited, result, y);
    OutsideRecords(g, image, v, inode, at, n, k, x);
    PlaceKept(g, image, v, t, n, k, x);
  }

  predicate ByteCopied(image: Bytes, z: nat, result: Bytes, y: nat) {
    z < |image| && y < |result| && result[y] == image[z]
  }

  /** The new cluster holds the old one's bytes at the end too. */
  lemma CopyKept(g: Geometry, image: Bytes, v: View, inode: nat, p: Prep, t: Target, edited: Bytes, result: Bytes,
      d: nat)
    requires Done(g, image, v, inode, p, t, edited, result) && d < g.clusterSize
    ensures ByteCopied(image, Span(t.from, g.clusterSize) + d, result, Span(t.to, g.clusterSize) + d)
  {
    hide Done, Relocated, Disjoint, Owned, RecordOffset, IsView, Volumes.Sound, Truthful, Span;
    DoneAim(g, image, v, inode, p, t, edited, result);
    ClusterFits(g, image, t.to);
    var y := Span(t.to, g.clusterSize) + d;
    var at := ResultByte(g, image, v, inode, p, t, edited, result, y);
    RecordOffCluster(g, image, v, inode, at, t.to, y);
    ClusterCopied(g, image, v, t, y);
  }

  /** A stream whose attribute stands reads the same. */
  lemma StandingContent(g: Geometry, image: Bytes, v: View, inode: nat, p: Prep, t: Target, edited: Bytes,
      result: Bytes, n: nat, k: nat, x: nat)
    requires Done(g, image, v, inode, p, t, edited, result) && n in v && k < |v[n]|
    requires HasData(v, 0) && HasData(v, FILE_BITMAP) && Ordinary(v, n, k)
    ensures StreamByte(g, result, v[n][k], x) == StreamByte(g, image, v[n][k], x)
  {
    hide Done, Locate, Truthful, Laid, Aimed;
    DoneAim(g, image, v, inode, p, t, edited, result);
    var q := Locate(v[n][k].body.runs, g.clusterSize, x);
    if q.At? && q.device < |image| { DeviceByteKept(g, image, v, inode, p, t, edited, result, n, k, x); }
  }

  /** The moved stream reads the same through its two runs. */
  lemma MovedContent(g: Geometry, image: Bytes, v: View, inode: nat, p: Prep, t: Target, edited: Bytes, result: Bytes,
      a: Attr, x: nat)
    requires Done(g, image, v, inode, p, t, edited, result) && inode != 0 && inode != FILE_BITMAP
    requires HasData(v, 0) && HasData(v, FILE_BITMAP) && HasData(v, inode) && Movable(v, inode, DataAt(v, inode))
    requires a.body.runs == Split(Data(v, inode).body.runs[0], t.to)
    ensures StreamByte(g, result, a, x) == StreamByte(g, image, Data(v, inode), x)
  {
    hide Done, Locate, Consistent, Aimed, Span, Split, DataIndex, StreamByte, ByteCopied;
    DoneAim(g, image, v, inode, p, t, edited, result);
    var q, b := Locate(Data(v, inode).body.runs, g.clusterSize, x), Data(v, inode);
    assert t.from == LastCluster(b.body.runs[0]);
    if q.At? && q.device >= Span(t.from, g.clusterSize) {
      var d := LastOffset(b.body.runs, g.clusterSize, t.from, x);
      CopyKept(g, image, v, inode, p, t, edited, result, d);
      LastReads(g, image, result, a, b, t.from, t.to, x, d);
    } else {
      if q.At? && q.device < |image| {
        DeviceByteKept(g, image, v, inode, p, t, edited, result, inode, DataAt(v, inode), x);
      }
      FrontReads(g, image, result, a, b, t.from, t.to, x);
    }
  }

  lemma LastOffset(runs: seq<Run>, cs: nat, from: nat, x: nat) returns (d: nat)
    requires |runs| == 1 && runs[0].length >= 2 && runs[0].lcn.Some? && from == LastCluster(runs[0])
    requires Locate(runs, cs, x).At? && Locate(runs, cs, x).device >= Span(from, cs)
    ensures d < cs && Locate(runs, cs, x) == At(Span(from, cs) + d)
  {
    hide Locate, Span;
    assert runs == [runs[0]];
    LocateSplit(runs[0], 0, cs, x);
    d := Locate(runs, cs, x).device - Span(from, cs);
  }

  /** A byte of the copied cluster reads the same through the second run. */
  lemma LastReads(g: Geometry, image: Bytes, result: Bytes, a: Attr, b: Attr, from: nat, to: nat, x: nat, d: nat)
    requires |b.body.runs| == 1 && b.body.runs[0].length >= 2 && b.body.runs[0].lcn.Some?
    requires from == LastCluster(b.body.runs[0]) && a.body.runs == Split(b.body.runs[0], to)
    requires Locate(b.body.runs, g.clusterSize, x) == At(Span(from, g.clusterSize) + d)
    requires ByteCopied(image, Span(from, g.clusterSize) + d, result, Span(to, g.clusterSize) + d)
    ensures StreamByte(g, result, a, x) == StreamByte(g, image, b, x)
  {
    hide Locate, Span, Split;
    assert b.body.runs == [b.body.runs[0]];
    LocateSplit(b.body.runs[0], to, g.clusterSize, x);
  }

  /** A byte ahead of it reads the same through the first run. */
  lemma FrontReads(g: Geometry, image: Bytes, result: Bytes, a: Attr, b: Attr, from: nat, to: nat, x: nat)
    requires |b.body.runs| == 1 && b.body.runs[0].length >= 2 && b.body.runs[0].lcn.Some?
    requires from == LastCluster(b.body.runs[0]) && a.body.runs == Split(b.body.runs[0], to) && |result| == |image|
    requires var q := Locate(b.body.runs, g.clusterSize, x);
             && (q.At? ==> q.device < Span(from, g.clusterSize))
             && (q.At? && q.device < |image| ==> result[q.device] == image[q.device])
    ensures StreamByte(g, result, a, x) == StreamByte(g, image, b, x)
  {
    hide Locate, Span, Split;
    assert b.body.runs == [b.body.runs[0]];
    LocateSplit(b.body.runs[0], to, g.clusterSize, x);
  }

  /** Every byte of every ordinary stream is what it was, the moved stream included. */
  lemma ContentKept(g: Geometry, image: Bytes, v: View, inode: nat, p: Prep, t: Target, edited: Bytes, result: Bytes,
      length: nat, n: nat, k: nat, x: nat)
    requires Done(g, image, v, inode, p, t, edited, result) && inode != 0 && n in v && k < |v[n]|
    requires HasData(v, 0) && HasData(v, FILE_BITMAP) && Ordinary(v, n, k)
    requires HasData(v, inode) && Movable(v, inode, DataAt(v, inode))
    ensures k < |VolumeAfter(v, inode, length, t.to)[n]|
    ensures StreamByte(g, result, VolumeAfter(v, inode, length, t.to)[n][k], x) == StreamByte(g, image, v[n][k], x)
  {
    hide Done, StreamByte, Split;
    var w := VolumeAfter(v, inode, length, t.to);
    if n == inode && k == DataAt(v, inode) {
      MovedContent(g, image, v, inode, p, t, edited, result, w[n][k], x);
    } else {
      assert w[n][k] == v[n][k];
      StandingContent(g, image, v, inode, p, t, edited, result, n, k, x);
    }
  }

  // ---------- conservation ----------

  /** The clusters the bitmap marks. */
  ghost function Marked(g: Geometry, image: Bytes, a: Attr): set<nat> {
    set c: nat | c < g.totalClusters && BitOf(g, image, a, c) == Ok(true)
  }

  /** One mark moves, so as many clusters are allocated as before. */
  lemma MarksConserved(g: Geometry, image: Bytes, v: View, inode: nat, p: Prep, t: Target, edited: Bytes, result: Bytes)
    requires Done(g, image, v, inode, p, t, edited, result) && HasData(v, FILE_BITMAP)
    ensures var a := Data(v, FILE_BITMAP);
            && Marked(g, result, a) == Marked(g, image, a) - {t.from} + {t.to}
            && t.from in Marked(g, image, a) && t.to !in Marked(g, image, a)
            && |Marked(g, result, a)| == |Marked(g, image, a)|
  {
    hide Done, BitOf, Owned, Laid, Disjoint, Moved, Volumes.Holds;
    DoneAim(g, image, v, inode, p, t, edited, result);
    var a := Data(v, FILE_BITMAP);
    OwnedAfter(v, inode, DataAt(v, inode), 0, t.to, t.from);
    LastInside(g, image, v, inode);
    var before, after := Marked(g, image, a), Marked(g, result, a);
    forall c: nat ensures c in after <==> c in before - {t.from} + {t.to} {
      BitsAtEnd(g, image, v, inode, p, t, edited, result, c);
    }
    assert after == before - {t.from} + {t.to};
  }

  lemma LastInside(g: Geometry, image: Bytes, v: View, n: nat)
    requires Laid(g, image, v) && HasData(v, n) && Movable(v, n, DataAt(v, n))
    ensures Last(v, n, DataAt(v, n)) < g.totalClusters
  {
    assert Volumes.Holds(v, Id(n, DataAt(v, n), 0), Last(v, n, DataAt(v, n)));
  }

  // ---------- the theorem ----------

  /** Every ordinary stream reads the same before and after. */
  ghost predicate SameContents(g: Geometry, image: Bytes, v: View, result: Bytes, w: View)
    requires HasData(v, 0) && HasData(v, FILE_BITMAP)
  {
    && v.Keys == w.Keys
    && forall n, k, x: nat :: n in v && 0 <= k < |v[n]| && Ordinary(v, n, k) ==>
         k < |w[n]| && StreamByte(g, result, w[n][k], x) == StreamByte(g, image, v[n][k], x)
  }

  /** The device bytes a move may change: the new cluster, the two bitmap bytes as the old
      bitmap attribute places them, and the moved record's place. */
  predicate MayChange(g: Geometry, bitmap: Attr, from: nat, to: nat, at: nat, y: nat) {
    || InCluster(g, to, y) || at <= y < at + g.recordSize
    || Locate(bitmap.body.runs, g.clusterSize, to / 8) == At(y)
       || Locate(bitmap.body.runs, g.clusterSize, from / 8) == At(y)
  }

  /** Every other device byte is as it was, and of the bitmap's bits just the two changed. */
  ghost predicate SameElsewhere(g: Geometry, image: Bytes, bitmap: Attr, from: nat, to: nat, inode: nat, result: Bytes)
    requires Sane(g)
  {
    && |result| == |image| && RecordOffset(g, image, inode).Ok?
    && (forall y :: 0 <= y < |image| && !MayChange(g, bitmap, from, to, RecordOffset(g, image, inode).value, y) ==>
       result[y] == image[y])
    && (forall c: nat :: BitOf(g, result, bitmap, c)
                         == if c == from then Ok(false) else if c == to then Ok(true) else BitOf(g, image, bitmap, c))
  }

  lemma ElsewhereKept(g: Geometry, image: Bytes, v: View, inode: nat, p: Prep, t: Target, edited: Bytes, result: Bytes)
    requires Done(g, image, v, inode, p, t, edited, result)
    ensures SameElsewhere(g, image, t.bitmap, t.from, t.to, inode, result)
  {
    hide Done, Relocated, Locate, Laid, Truthful, RecordOffset, Span, Owned, Disjoint, CopiedByte, BitOf;
    DoneAim(g, image, v, inode, p, t, edited, result);
    var at := StoredPlace(g, image, v, inode, p, t, edited, result);
    forall y | 0 <= y < |image| && !MayChange(g, t.bitmap, t.from, t.to, at, y) ensures result[y] == image[y] {
      var _ := ResultByte(g, image, v, inode, p, t, edited, result, y);
      RelocatedByte(g, image, v, t, y);
      Uncopied(g, image, t, y);
    }
    forall c: nat
      ensures BitOf(g, result, t.bitmap, c)
           == if c == t.from then Ok(false) else if c == t.to then Ok(true) else BitOf(g, image, t.bitmap, c)
    {
      BitsAtEnd(g, image, v, inode, p, t, edited, result, c);
    }
  }

  lemma StoredPlace(g: Geometry, image: Bytes, v: View, inode: nat, p: Prep, t: Target, edited: Bytes, result: Bytes)
    returns (at: nat)
    requires Done(g, image, v, inode, p, t, edited, result)
    ensures Sane(g) && RecordOffset(g, image, inode) == Ok(at)
  {
    hide Prepared, Targeted, Rewritten, Relocated, Stored, Truthful, Disjoint, ClearArray, RecordOffset, IsView,
         Owned, MS.ArrayOk, MS.EncodeArray;
    ChosenFacts(g, image, v, inode, p, t);
    at := StoredAt(g, image, v, t, inode, edited);
  }

  /** These are the attribute's data bytes, all of them. */
  ghost predicate ContentIs(g: Geometry, image: Bytes, a: Attr, content: Bytes) {
    |content| == a.body.dataSize && forall y: nat :: y < |content| ==> StreamByte(g, image, a, y) == Some(content[y])
  }

  lemma ContentRead(g: Geometry, image: Bytes, a: Attr, content: Bytes)
    requires ContiguousAttr(a) && StreamBytes(g, image, a, 0, a.body.dataSize) == Ok(content)
    ensures ContentIs(g, image, a, content)
  {
    hide Locate, StreamBytes, ContiguousAttr;
    ReadLength(g, image, a, a.body.dataSize, content);
    forall y: nat | y < |content| ensures StreamByte(g, image, a, y) == Some(content[y]) {
      AllRead(g, image, a, a.body.dataSize, content, y);
    }
  }

  /** What a reported change leaves: the content as reported; two runs; the view as before but for that attribute's
      runs, no cluster shared; every ordinary stream and every other live record with its
      content, the moved record with its bytes ahead of the pairs, the rest of the device
      with its bytes; and, exactly when the moved attribute is not the bitmap's own, a
      consistent volume with as many clusters allocated as before. */
  ghost predicate Kept(g: Geometry, image: Bytes, v: View, inode: nat, record: Bytes, result: Bytes, out: Outcome,
      length: nat)
    requires Sane(g) && HasData(v, 0) && HasData(v, FILE_BITMAP) && HasData(v, inode)
        && Movable(v, inode, DataAt(v, inode))
  {
    var w := VolumeAfter(v, inode, length, out.newLcn);
    && ContentIs(g, image, Data(v, inode), out.content)
    && out.runs == Split(Data(v, inode).body.runs[0], out.newLcn)
    && out.releasedLcn == Last(v, inode, DataAt(v, inode)) && !Owned(v, out.newLcn)
    && Laid(g, result, w) && SameContents(g, image, v, result, w)
    && OtherRecordsKept(g, image, v, inode, result)
    && Record(g, result, inode).Ok? && HeadKept(record, Record(g, result, inode).value, Data(v, inode))
    && SameElsewhere(g, image, Data(v, FILE_BITMAP), out.releasedLcn, out.newLcn, inode, result)
    && (Consistent(g, result, w) <==> inode != FILE_BITMAP)
    && (inode != FILE_BITMAP ==>
        && HasData(w, FILE_BITMAP)
        && |Marked(g, result, Data(w, FILE_BITMAP))| == |Marked(g, image, Data(v, FILE_BITMAP))|)
  }

  lemma DoneContent(g: Geometry, image: Bytes, v: View, inode: nat, p: Prep, t: Target, edited: Bytes, result: Bytes)
    requires Done(g, image, v, inode, p, t, edited, result)
    ensures ContentIs(g, image, p.data, p.content)
  {
    hide Prepared, Targeted, Rewritten, Relocated, Stored, Truthful, IsView, Disjoint, Owned, RecordOffset,
         StreamBytes, DataIndex, ClearArray, Chain, Contiguous, ContentIs;
    ChosenFacts(g, image, v, inode, p, t);
    assert ContiguousAttr(v[inode][DataAt(v, inode)]);
    ContentRead(g, image, p.data, p.content);
  }

  lemma DoneKeeps(g: Geometry, image: Bytes, v: View, inode: nat, p: Prep, t: Target, edited: Bytes, result: Bytes,
      out: Outcome)
    returns (length: nat)
    requires Done(g, image, v, inode, p, t, edited, result) && inode != 0 && Accepted(g, result, inode, p, t)
    requires out.releasedLcn == t.from && out.newLcn == t.to && out.runs == Split(p.data.body.runs[0], t.to)
    requires out.content == p.content
    ensures HasData(v, 0) && HasData(v, inode) && Movable(v, inode, DataAt(v, inode))
    ensures Kept(g, image, v, inode, p.record, result, out, length)
  {
    hide Prepared, Targeted, Rewritten, Relocated, Stored, IsView, Volumes.Sound, RecordOffset, Truthful, Disjoint,
         Owned, BitOf, ClearArray, Marked, SameContents, DataIndex, Split, Accepted, OtherRecordsKept, HeadKept,
         SameElsewhere, Record, VolumeAfter;
    DoneAim(g, image, v, inode, p, t, edited, result);
    DoneContent(g, image, v, inode, p, t, edited, result);
    MftFound(g, image, v);
    length := ViewAfter(g, image, v, inode, p, t, edited, result);
    ElsewhereKept(g, image, v, inode, p, t, edited, result);
    ContentsKept(g, image, v, inode, p, t, edited, result, length);
    ConsistencyDecided(g, image, v, inode, p, t, edited, result, length);
  }

  /** A reported change on a consistent volume is never the $MFT's and keeps the volume. */
  lemma FragmentKeepsVolume(g: Geometry, image: Bytes, v: View, inode: nat) returns (length: nat)
    requires Consistent(g, image, v) && inode in v && Fragment(g, image, inode).Ok?
    requires Fragment(g, image, inode).value.1.changed && ClearArray(g, Prepared(g, image, inode).value.record)
    ensures inode != 0 && HasData(v, 0) && HasData(v, inode) && Movable(v, inode, DataAt(v, inode))
    ensures var (result, out) := Fragment(g, image, inode).value;
            |out.runs| == 2 && Kept(g, image, v, inode, Prepared(g, image, inode).value.record, result, out, length)
  {
    hide Fragment, Done, IsView, Volumes.Sound, Disjoint, RecordOffset, Truthful, ClearArray, Kept, Movable,
         DataIndex, Accepted;
    var p, t, edited := SuccessIsDone(g, image, v, inode);
    var (result, out) := Fragment(g, image, inode).value;
    DoneIsPrepared(g, image, v, inode, p, t, edited, result);
    length := DoneKeeps(g, image, v, inode, p, t, edited, result, out);
  }

  lemma DoneIsPrepared(g: Geometry, image: Bytes, v: View, inode: nat, p: Prep, t: Target, edited: Bytes, result: Bytes)
    requires Done(g, image, v, inode, p, t, edited, result)
    ensures Sane(g) && Prepared(g, image, inode) == Ok(p)
  {
    hide Prepared, Targeted, Rewritten, Relocated, Stored;
  }

  lemma MovedRuns(v: View, inode: nat, length: nat, to: nat)
    requires HasData(v, inode) && Movable(v, inode, DataAt(v, inode))
    ensures var w, t := VolumeAfter(v, inode, length, to), DataAt(v, inode);
            inode in w && t < |w[inode]| && w[inode][t].body.runs == Split(v[inode][t].body.runs[0], to)
    ensures inode != FILE_BITMAP && HasData(v, FILE_BITMAP) ==>
            HasData(VolumeAfter(v, inode, length, to), FILE_BITMAP)
                && Data(VolumeAfter(v, inode, length, to), FILE_BITMAP) == Data(v, FILE_BITMAP)
  {
  }

  lemma ContentsKept(g: Geometry, image: Bytes, v: View, inode: nat, p: Prep, t: Target, edited: Bytes, result: Bytes,
      length: nat)
    requires Done(g, image, v, inode, p, t, edited, result) && inode != 0
    requires HasData(v, 0) && HasData(v, FILE_BITMAP)
    requires HasData(v, inode) && Movable(v, inode, DataAt(v, inode))
    ensures SameContents(g, image, v, result, VolumeAfter(v, inode, length, t.to))
  {
    hide Done, StreamByte, Ordinary;
    var w := VolumeAfter(v, inode, length, t.to);
    forall n, k, x: nat | n in v && 0 <= k < |v[n]| && Ordinary(v, n, k)
      ensures k < |w[n]| && StreamByte(g, result, w[n][k], x) == StreamByte(g, image, v[n][k], x)
    {
      ContentKept(g, image, v, inode, p, t, edited, result, length, n, k, x);
    }
  }

  lemma ConsistencyDecided(g: Geometry, image: Bytes, v: View, inode: nat, p: Prep, t: Target, edited: Bytes,
      result: Bytes, length: nat)
    requires Done(g, image, v, inode, p, t, edited, result) && inode != 0 && HasData(v, FILE_BITMAP)
    requires Accepted(g, result, inode, p, t)
    requires HasData(v, inode) && Movable(v, inode, DataAt(v, inode))
    requires Laid(g, result, VolumeAfter(v, inode, length, t.to))
    ensures var w := VolumeAfter(v, inode, length, t.to);
            && (Consistent(g, result, w) <==> inode != FILE_BITMAP)
            && (inode != FILE_BITMAP ==>
                && HasData(w, FILE_BITMAP)
                && |Marked(g, result, Data(w, FILE_BITMAP))| == |Marked(g, image, Data(v, FILE_BITMAP))|)
  {
    hide Laid, Truthful, Marked, VolumeAfter, Movable, Accepted, Prepared, Targeted, Rewritten, Relocated, Stored,
         ClearArray, Disjoint;
    MovedRuns(v, inode, length, t.to);
    if inode == FILE_BITMAP {
      BitmapStale(g, image, v, p, t, edited, result, length);
    } else {
      TruthKept(g, image, v, inode, p, t, edited, result, length);
      MarksConserved(g, image, v, inode, p, t, edited, result);
    }
  }

  /** No reported change: the image is untouched and the file already had several runs. */
  lemma UnchangedIsUntouched(g: Geometry, image: Bytes, inode: nat)
    requires Sane(g) && Fragment(g, image, inode).Ok? && !Fragment(g, image, inode).value.1.changed
    ensures Fragment(g, image, inode).value.0 == image && |Fragment(g, image, inode).value.1.runs| >= 2
  {
    hide Prepared, Targeted, Rewritten, Relocated, Stored, Verified, RoundTrips;
  }
}
