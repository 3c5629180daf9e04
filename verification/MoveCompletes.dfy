/** When ensure_fragmented_data goes through: always on a consistent volume once the new
    pairs fit, except for the $MFT, and for the bitmap only when both of its changed bytes
    lie in the very cluster that moves. */
module MoveCompletes {
  import opened Bytes
  import opened Arithmetic
  import opened Runlist
  import opened Streams
  import opened FixtureRecords
  import opened FixtureImage
  import opened Bitmap
  import opened Volumes
  import opened Fragmentation
  import opened VolumeKept
  import PairReplacement
  import MS = MultiSector
  import FR = FileRecords

  // ---------- the two bitmap writes ----------

  lemma {:induction false} OneByteSegment(runs: seq<Run>, vcn: nat, cs: nat, x: nat, d: nat)
    requires Contiguous(runs, vcn) && Locate(runs, cs, x) == At(d)
    ensures SegmentsFrom(runs, cs, x, 1) == Ok([Segment(Some(d), 1)])
  {
    hide Span;
    var run := runs[0];
    if x >= Span(run.vcn + run.length, cs) {
      OneByteSegment(runs[1..], vcn + run.length, cs, x, d);
    } else if x < Span(run.vcn, cs) {
      LocateBelow(runs, vcn, cs, x);
    }
  }

  /** A mapped bit with the other value can be written. */
  lemma BitWritable(g: Geometry, image: Bytes, a: Attr, bit: nat, value: bool)
    requires ContiguousAttr(a) && BitOf(g, image, a, bit) == Ok(!value)
    requires Locate(a.body.runs, g.clusterSize, bit / 8).At?
    ensures BitWritten(g, image, a, bit, value).Ok?
  {
    hide Locate, SegmentsFrom, Gathered, Test, Flipped;
    BitMeaning(g, image, a, bit);
    OneByteSegment(a.body.runs, a.body.lowestVcn, g.clusterSize, bit / 8,
        Locate(a.body.runs, g.clusterSize, bit / 8).device);
    ByteRead(g, image, a, bit / 8);
  }

  /** A set bit is never in a hole. */
  lemma SetBitMapped(g: Geometry, image: Bytes, a: Attr, bit: nat)
    requires ContiguousAttr(a) && BitOf(g, image, a, bit) == Ok(true)
    ensures Locate(a.body.runs, g.clusterSize, bit / 8).At?
  {
    hide Locate, BitOf;
    BitMeaning(g, image, a, bit);
    assert !Test(0, bit % 8);
  }

  lemma RelocateSucceeds(g: Geometry, image: Bytes, v: View, t: Target)
    requires Aimed(g, image, v, t) && t.from != t.to && Span(t.from, g.clusterSize) + g.clusterSize <= |image|
    requires BitOf(g, image, t.bitmap, t.from) == Ok(true) && BitOf(g, image, t.bitmap, t.to) == Ok(false)
    requires Locate(t.bitmap.body.runs, g.clusterSize, t.to / 8).At?
    ensures Relocated(g, image, t).Ok?
  {
    hide Locate, BitWritten, BitOf, Disjoint, Owned, Span, CopiedByte, Put, Copied;
    var cs, b := g.clusterSize, DataAt(v, FILE_BITMAP);
    CopySucceeds(g, image, t);
    var copied := Copied(g, image, t).value;
    BitUncopied(g, image, v, t, t.from);
    BitUncopied(g, image, v, t, t.to);
    BitWritable(g, copied, t.bitmap, t.to, true);
    AttrInjective(v, cs, FILE_BITMAP, b);
    BitsAfter(g, copied, t.bitmap, t.to, true, t.from);
    SetBitMapped(g, image, t.bitmap, t.from);
    BitWritable(g, BitWritten(g, copied, t.bitmap, t.to, true).value, t.bitmap, t.from, false);
  }

  lemma CopySucceeds(g: Geometry, image: Bytes, t: Target)
    requires Whole(g, image) && t.to < g.totalClusters && Span(t.from, g.clusterSize) + g.clusterSize <= |image|
    ensures Copied(g, image, t).Ok?
  {
    hide Span, Put;
  }

  /** Copying into a free cluster touches no bit. */
  lemma BitUncopied(g: Geometry, image: Bytes, v: View, t: Target, c: nat)
    requires Aimed(g, image, v, t) && Copied(g, image, t).Ok?
    ensures BitOf(g, Copied(g, image, t).value, t.bitmap, c) == BitOf(g, image, t.bitmap, c)
  {
    hide Locate, BitOf, Copied, Disjoint, Owned, Span, CopiedByte;
    var q := Locate(t.bitmap.body.runs, g.clusterSize, c / 8);
    if q.At? && q.device < |image| {
      FreePlace(v, g.clusterSize, FILE_BITMAP, DataAt(v, FILE_BITMAP), c / 8, t.to);
      CopiedBytes(g, image, t, q.device);
      Uncopied(g, image, t, q.device);
    }
    BitFrame(g, t.bitmap, image, Copied(g, image, t).value, c);
  }

  // ---------- the record ----------

  lemma {:induction false} DataIndexKept(chain: seq<Attr>, t: nat, e: Attr)
    requires DataIndex(chain) == Some(t) && Is(e, FR.AT_DATA, [])
    ensures DataIndex(chain[t := e]) == Some(t)
  {
    if t > 0 {
      DataIndexKept(chain[1..], t - 1, e);
      assert chain[t := e][1..] == chain[1..][t - 1 := e];
    }
  }

  /** The edited record still passes both the runlist comparison and the fixup header test. */
  lemma EditAccepted(g: Geometry, record: Bytes, edited: Bytes, runs: seq<Run>)
    requires Sane(g) && |record| == g.recordSize && ClearArray(g, record)
    requires Chain(record, First(record)).Ok? && DataIndex(Chain(record, First(record)).value).Some?
    requires var chain := Chain(record, First(record)).value;
             var x := chain[DataIndex(chain).value];
             PairReplacement.Ordinary(x) && DataOf(record) == Ok(x) && Rewritten(record, x, runs) == Ok(edited)
    requires runs != []
    ensures RoundTrips(edited, runs) && MS.ArrayOk(edited, g.sectorSize)
  {
    hide Chain, FindFrom, EncodePairs, Replaced, U32, DataIndex;
    var chain := Chain(record, First(record)).value;
    var t := DataIndex(chain).value;
    var x := chain[t];
    PairReplacement.ChainAt(record, First(record), t);
    var length := PairReplacement.ReplacedChain(record, t, EncodePairs(runs, x.body.lowestVcn, 0).value, runs);
    DataIndexKept(chain, t, Attr(x.offset, length, x.body.(runs := runs)));
    FindInChain(edited, First(edited));
    assert U16(edited, 4) == U16(record, 4) && U16(edited, 6) == U16(record, 6);
  }

  // ---------- reading the content back ----------

  lemma {:induction false} EmptySegment(runs: seq<Run>, vcn: nat, cs: nat, x: nat)
    requires Contiguous(runs, vcn)
    ensures SegmentsFrom(runs, cs, x, 0).Ok? <==> Locate(runs, cs, x) != Outside
  {
    hide Span;
    if runs != [] {
      var run := runs[0];
      if x >= Span(run.vcn + run.length, cs) {
        EmptySegment(runs[1..], vcn + run.length, cs, x);
      } else if x < Span(run.vcn, cs) {
        LocateBelow(runs, vcn, cs, x);
      }
    }
  }

  lemma EmptyRead(g: Geometry, image: Bytes, a: Attr)
    requires a.body.nonresident && ContiguousAttr(a)
    ensures StreamBytes(g, image, a, 0, 0) == if Locate(a.body.runs, g.clusterSize, 0) == Outside then Err else Ok([])
  {
    hide SegmentsFrom, Locate;
    EmptySegment(a.body.runs, a.body.lowestVcn, g.clusterSize, 0);
    if SegmentsFrom(a.body.runs, g.clusterSize, 0, 0).Ok? {
      var s := SegmentsFrom(a.body.runs, g.clusterSize, 0, 0).value;
      EmptyRequest(a.body.runs, g.clusterSize, 0);
      assert s == [s[0]];
      OneGathered(image, s[0]);
      assert Zeros(0) == [];
    }
  }

  /** Streams that agree byte for byte read alike. */
  lemma SameRead(g: Geometry, image: Bytes, a: Attr, result: Bytes, b: Attr, n: nat, content: Bytes)
    requires ContiguousAttr(a) && ContiguousAttr(b) && b.body.nonresident && n <= b.body.dataSize
    requires StreamBytes(g, image, a, 0, n) == Ok(content)
    requires Locate(a.body.runs, g.clusterSize, 0) == Outside <==> Locate(b.body.runs, g.clusterSize, 0) == Outside
    requires forall x: nat :: x < n ==> StreamByte(g, result, b, x) == StreamByte(g, image, a, x)
    ensures StreamBytes(g, result, b, 0, n) == Ok(content)
  {
    hide SegmentsFrom, Locate, Gathered, ReadFrom, Contiguous;
    ReadLength(g, image, a, n, content);
    if n == 0 {
      EmptyRead(g, image, a);
      EmptyRead(g, result, b);
    } else {
      var runs, cs := b.body.runs, g.clusterSize;
      forall x | 0 <= x < n
        ensures Readable(result, Locate(runs, cs, x)) && ByteAt(result, Locate(runs, cs, x)) == content[x]
      {
        AllRead(g, image, a, n, content, x);
        assert StreamByte(g, result, b, x) == StreamByte(g, image, a, x);
      }
      GatheredIsRead(result, runs, cs, 0, n);
      ReadMeaning(result, runs, b.body.lowestVcn, cs, 0, n);
      var r := ReadFrom(result, runs, cs, 0, n);
      assert AllReadable(result, runs, cs, 0, n);
      forall x | 0 <= x < n ensures r.value[x] == content[x] {
        assert r.value[x - 0] == ByteAt(result, Locate(runs, cs, x));
      }
      assert r.value == content;
    }
  }

  // ---------- the bitmap's own move ----------

  /** Stream byte x lies in the last cluster of the run. */
  predicate InLast(run: Run, cs: nat, x: nat)
    requires run.length >= 1
  {
    Span(run.vcn + run.length - 1, cs) <= x
  }

  /** Both bytes the operation changes lie in the cluster that moves. */
  predicate BothInLast(g: Geometry, p: Prep, t: Target)
    requires |p.data.body.runs| == 1 && p.data.body.runs[0].length >= 2
  {
    InLast(p.data.body.runs[0], g.clusterSize, t.to / 8) && InLast(p.data.body.runs[0], g.clusterSize, t.from / 8)
  }

  /** The place of a byte tells whether it lies in the last cluster. */
  lemma LastPlace(run: Run, cs: nat, x: nat)
    requires run.length >= 2 && run.lcn.Some? && Locate([run], cs, x).At?
    ensures InLast(run, cs, x) <==> Locate([run], cs, x).device >= Span(run.lcn.value + run.length - 1, cs)
  {
    assert [run][1..] == [] && Locate([], cs, x) == Outside;
    SpanAdd(run.lcn.value, run.length - 1, cs);
    SpanAdd(run.vcn, run.length - 1, cs);
  }

  /** With both changed bytes left behind, the moved bitmap reads as it did. */
  lemma BitmapReadsOld(g: Geometry, image: Bytes, v: View, p: Prep, t: Target, edited: Bytes, result: Bytes, a: Attr,
      x: nat)
    requires Done(g, image, v, FILE_BITMAP, p, t, edited, result) && BothInLast(g, p, t)
    requires p.data.body.runs[0].lcn.Some? && a.body.runs == Split(p.data.body.runs[0], t.to)
    ensures StreamByte(g, result, a, x) == StreamByte(g, image, p.data, x)
  {
    hide Done, Locate, Consistent, Aimed, Span, Split, InLast, DataIndex, StreamByte, ByteCopied;
    DoneAim(g, image, v, FILE_BITMAP, p, t, edited, result);
    var q, runs := Locate(p.data.body.runs, g.clusterSize, x), p.data.body.runs;
    assert t.from == LastCluster(runs[0]);
    if q.At? && q.device >= Span(t.from, g.clusterSize) {
      var d := LastOffset(runs, g.clusterSize, t.from, x);
      CopyKept(g, image, v, FILE_BITMAP, p, t, edited, result, d);
      LastReads(g, image, result, a, p.data, t.from, t.to, x, d);
    } else {
      if q.At? && q.device < |image| {
        assert runs == [runs[0]];
        LastPlace(runs[0], g.clusterSize, x);
        SetApart(g, image, v, p, t, edited, result, x);
      }
      FrontReads(g, image, result, a, p.data, t.from, t.to, x);
    }
  }

  lemma SetApart(g: Geometry, image: Bytes, v: View, p: Prep, t: Target, edited: Bytes, result: Bytes, x: nat)
    requires Done(g, image, v, FILE_BITMAP, p, t, edited, result) && BothInLast(g, p, t)
    requires p.data.body.runs[0].lcn.Some? && !InLast(p.data.body.runs[0], g.clusterSize, x)
    requires var q := Locate(p.data.body.runs, g.clusterSize, x); q.At? && q.device < |image|
    ensures |result| == |image|
    ensures var y := Locate(p.data.body.runs, g.clusterSize, x).device; result[y] == image[y]
  {
    hide Done, Locate, Truthful, IsView, Volumes.Sound, RecordOffset, Disjoint, Span, Owned, Relocated;
    DoneAim(g, image, v, FILE_BITMAP, p, t, edited, result);
    var cs, b, y := g.clusterSize, DataAt(v, FILE_BITMAP), Locate(p.data.body.runs, g.clusterSize, x).device;
    MftFound(g, image, v);
    var at := ResultByte(g, image, v, FILE_BITMAP, p, t, edited, result, y);
    OutsideRecords(g, image, v, FILE_BITMAP, at, FILE_BITMAP, b, x);
    AttrInjective(v, cs, FILE_BITMAP, b);
    assert x != t.to / 8 && x != t.from / 8;
    FreePlace(v, cs, FILE_BITMAP, b, x, t.to);
    RelocatedByte(g, image, v, t, y);
    Uncopied(g, image, t, y);
  }

  /** Otherwise the comparison sees a changed bit: a reported move of the bitmap has both
      changed bytes in the cluster that moved. */
  lemma BitmapMoveOnly(g: Geometry, image: Bytes, v: View, p: Prep, t: Target, edited: Bytes, result: Bytes, c: nat)
    requires Done(g, image, v, FILE_BITMAP, p, t, edited, result) && p.data.body.runs[0].lcn.Some?
    requires Accepted(g, result, FILE_BITMAP, p, t) && (c == t.to || c == t.from)
    ensures InLast(p.data.body.runs[0], g.clusterSize, c / 8)
  {
    hide Prepared, Targeted, Rewritten, Relocated, Stored, Truthful, ClearArray, Record, StreamBytes, BitOf, Locate,
         FindFrom, Split, Test, IsView, Disjoint, Owned, Span, Contiguous, Volumes.Sound, RecordOffset, InLast;
    DoneAim(g, image, v, FILE_BITMAP, p, t, edited, result);
    ChosenFacts(g, image, v, FILE_BITMAP, p, t);
    var cs, run, x := g.clusterSize, p.data.body.runs[0], c / 8;
    assert p.data.body.runs == [run];
    var record := Record(g, result, FILE_BITMAP).value;
    var a := DataOf(record).value;
    FoundContiguous(record, First(record));
    TargetBits(g, image, v, p, t);
    BitsAtEnd(g, image, v, FILE_BITMAP, p, t, edited, result, c);
    BitMeaning(g, image, p.data, c);
    BitMeaning(g, result, p.data, c);
    ReadLength(g, image, p.data, p.data.body.dataSize, p.content);
    ReadLength(g, result, a, a.body.dataSize, p.content);
    AllRead(g, image, p.data, p.data.body.dataSize, p.content, x);
    AllRead(g, result, a, a.body.dataSize, p.content, x);
    LocateSplit(run, t.to, cs, x);
    LastPlace(run, cs, x);
  }

  /** The two bits as the operation found them. */
  lemma TargetBits(g: Geometry, image: Bytes, v: View, p: Prep, t: Target)
    requires Consistent(g, image, v) && Aimed(g, image, v, t) && p.data.body.runs != []
    requires p.data.body.runs[0].lcn.Some? && p.data.body.runs[0].length >= 2
    requires Targeted(g, image, p.data.body.runs[0]) == Ok(t)
    ensures BitOf(g, image, t.bitmap, t.from) == Ok(true) && BitOf(g, image, t.bitmap, t.to) == Ok(false)
    ensures t.from != t.to
  {
    hide Record, DataOf, BitOf, StreamBytes, Nearest, Owned, Disjoint, IsView, Volumes.Sound;
    assert BitOf(g, image, t.bitmap, t.to) == Ok(Owned(v, t.to));
  }

  // ---------- completion ----------

  /** The record edit goes through. */
  predicate EditedTo(p: Prep, t: Target, edited: Bytes) {
    && 28 <= |p.record| <= 65536 && DataOf(p.record) == Ok(p.data) && p.data.body.nonresident
    && |p.data.body.runs| == 1 && p.data.body.runs[0].lcn.Some? && p.data.body.runs[0].length >= 2
    && Rewritten(p.record, p.data, Split(p.data.body.runs[0], t.to)) == Ok(edited)
  }

  /** On a consistent volume nothing after the record edit can fail, but for the $MFT and
      for a bitmap one of whose changed bytes stays behind. */
  lemma MoveCarried(g: Geometry, image: Bytes, v: View, inode: nat, p: Prep, t: Target, edited: Bytes)
    returns (result: Bytes)
    requires EditedTo(p, t, edited)
    requires Chosen(g, image, v, inode, p, t) && ClearArray(g, p.record)
    requires Locate(t.bitmap.body.runs, g.clusterSize, t.to / 8).At?
    ensures Done(g, image, v, inode, p, t, edited, result) && RoundTrips(edited, Split(p.data.body.runs[0], t.to))
  {
    hide Prepared, Targeted, Rewritten, Relocated, Locate, ClearArray, Record, FindFrom, Consistent, RoundTrips, Stored,
         Split, MS.ArrayOk;
    CopyAndMark(g, image, v, inode, p, t);
    ChosenEdit(g, image, v, inode, p, t, edited);
    StoreSucceeds(g, image, v, t, inode, edited);
    result := Stored(g, Relocated(g, image, t).value, inode, edited).value;
  }

  lemma CopyAndMark(g: Geometry, image: Bytes, v: View, inode: nat, p: Prep, t: Target)
    requires Chosen(g, image, v, inode, p, t) && Locate(t.bitmap.body.runs, g.clusterSize, t.to / 8).At?
    ensures Laid(g, image, v) && Aimed(g, image, v, t) && Relocated(g, image, t).Ok? && inode in v
  {
    hide Prepared, Targeted, Relocated, Locate, Record, StreamBytes, BitOf, FindFrom, Truthful, IsView, Disjoint, Owned,
         Span, Volumes.Sound, RecordOffset, Chain, DataIndex;
    ChosenFacts(g, image, v, inode, p, t);
    TargetBits(g, image, v, p, t);
    LastInside(g, image, v, inode);
    ClusterFits(g, image, t.from);
    RelocateSucceeds(g, image, v, t);
  }

  lemma ChosenEdit(g: Geometry, image: Bytes, v: View, inode: nat, p: Prep, t: Target, edited: Bytes)
    requires EditedTo(p, t, edited)
    requires Chosen(g, image, v, inode, p, t) && ClearArray(g, p.record)
    ensures |edited| == g.recordSize && MS.ArrayOk(edited, g.sectorSize)
    ensures RoundTrips(edited, Split(p.data.body.runs[0], t.to))
  {
    hide Prepared, Targeted, Rewritten, ClearArray, Record, StreamBytes, BitOf, FindFrom, Truthful, IsView, Disjoint,
         Owned, Span, Volumes.Sound, RecordOffset, Chain, DataIndex, RoundTrips, MS.ArrayOk, Split;
    ChosenFacts(g, image, v, inode, p, t);
    EditAccepted(g, p.record, edited, Split(p.data.body.runs[0], t.to));
  }

  lemma StoreSucceeds(g: Geometry, image: Bytes, v: View, t: Target, inode: nat, edited: Bytes)
    requires Laid(g, image, v) && Aimed(g, image, v, t) && Relocated(g, image, t).Ok? && inode in v
    requires MS.ArrayOk(edited, g.sectorSize)
    ensures Stored(g, Relocated(g, image, t).value, inode, edited).Ok?
  {
    hide IsView, Disjoint, Owned, Span, Volumes.Sound, RecordOffset, Relocated, MS.ArrayOk, MS.EncodeArray, Put;
    var at := RecordThroughMove(g, image, v, t, inode);
    var zero := RecordThroughMove(g, image, v, t, 0);
    OffsetsKept(g, image, Relocated(g, image, t).value, inode);
  }

  /** The search finds the moved attribute, changed in its runs and its length alone. */
  lemma AfterData(g: Geometry, result: Bytes, v: View, inode: nat, length: nat, to: nat)
    requires HasData(v, inode) && Movable(v, inode, DataAt(v, inode))
        && Laid(g, result, VolumeAfter(v, inode, length, to))
    ensures Record(g, result, inode).Ok?
    ensures var x := Data(v, inode);
            DataOf(Record(g, result, inode).value)
                == Ok(Attr(x.offset, length, x.body.(runs := Split(x.body.runs[0], to))))
    ensures ContiguousAttr(Attr(Data(v, inode).offset, length,
        Data(v, inode).body.(runs := Split(Data(v, inode).body.runs[0], to))))
  {
    hide Record, DataOf, IsView, Disjoint, DataIndex, ContiguousAttr, RecordOffset, Split;
    var w, t, x := VolumeAfter(v, inode, length, to), DataAt(v, inode), Data(v, inode);
    var e := Attr(x.offset, length, x.body.(runs := Split(x.body.runs[0], to)));
    assert w[inode] == v[inode][t := e];
    DataIndexKept(v[inode], t, e);
    ViewData(g, result, w, inode);
    assert ContiguousAttr(w[inode][t]);
  }

  /** The moved stream reads back as the content taken before the move. */
  lemma ContentStands(g: Geometry, image: Bytes, v: View, inode: nat, p: Prep, t: Target, edited: Bytes, result: Bytes,
      a: Attr)
    requires Done(g, image, v, inode, p, t, edited, result) && inode != 0 && p.data.body.runs[0].lcn.Some?
    requires inode == FILE_BITMAP ==> BothInLast(g, p, t)
    requires a.body == p.data.body.(runs := Split(p.data.body.runs[0], t.to)) && ContiguousAttr(a)
    ensures StreamBytes(g, result, a, 0, a.body.dataSize) == Ok(p.content)
  {
    hide Done, StreamBytes, StreamByte, Locate, Split, BothInLast, ContiguousAttr, HasData, Movable, Span;
    ContentTaken(g, image, v, inode, p, t, edited, result);
    var run := p.data.body.runs[0];
    assert p.data.body.runs == [run];
    LocateSplit(run, t.to, g.clusterSize, 0);
    forall x: nat | x < a.body.dataSize ensures StreamByte(g, result, a, x) == StreamByte(g, image, p.data, x) {
      if inode == FILE_BITMAP {
        BitmapReadsOld(g, image, v, p, t, edited, result, a, x);
      } else {
        MovedContent(g, image, v, inode, p, t, edited, result, a, x);
      }
    }
    SameRead(g, image, p.data, result, a, a.body.dataSize, p.content);
  }

  lemma ContentTaken(g: Geometry, image: Bytes, v: View, inode: nat, p: Prep, t: Target, edited: Bytes, result: Bytes)
    requires Done(g, image, v, inode, p, t, edited, result)
    ensures StreamBytes(g, image, p.data, 0, p.data.body.dataSize) == Ok(p.content) && ContiguousAttr(p.data)
    ensures p.data.body.nonresident && |p.data.body.runs| == 1 && p.data.body.runs[0].length >= 2
    ensures HasData(v, 0) && HasData(v, FILE_BITMAP) && HasData(v, inode) && Movable(v, inode, DataAt(v, inode))
    ensures p.data == Data(v, inode)
  {
    hide Prepared, Targeted, Rewritten, Relocated, Stored, Truthful, IsView, Disjoint, Owned, RecordOffset,
         StreamBytes, DataIndex, ClearArray, Chain, Contiguous;
    ChosenFacts(g, image, v, inode, p, t);
    MftFound(g, image, v);
    assert ContiguousAttr(v[inode][DataAt(v, inode)]);
  }

  lemma MoveVerified(g: Geometry, image: Bytes, v: View, inode: nat, p: Prep, t: Target, edited: Bytes, result: Bytes)
    requires Done(g, image, v, inode, p, t, edited, result) && inode != 0 && p.data.body.runs[0].lcn.Some?
    requires inode == FILE_BITMAP ==> BothInLast(g, p, t)
    ensures Accepted(g, result, inode, p, t)
  {
    hide Done, Truthful, IsView, Disjoint, Owned, Span, Volumes.Sound, RecordOffset, BitOf, StreamBytes, StreamByte,
         Locate, Record, DataOf, Split, BothInLast, Movable, DataIndex;
    DoneAim(g, image, v, inode, p, t, edited, result);
    MftFound(g, image, v);
    BitsAtEnd(g, image, v, inode, p, t, edited, result, t.from);
    BitsAtEnd(g, image, v, inode, p, t, edited, result, t.to);
    var length := ViewAfter(g, image, v, inode, p, t, edited, result);
    var w := VolumeAfter(v, inode, length, t.to);
    AfterData(g, result, v, inode, length, t.to);
    var a := DataOf(Record(g, result, inode).value).value;
    ContentStands(g, image, v, inode, p, t, edited, result, a);
  }

  /** The operation's steps up to its final check go through exactly when the new pairs fit
      the record and the target's bit lies in a mapped byte of the bitmap. */
  predicate Passable(g: Geometry, p: Prep, t: Target)
    requires 28 <= |p.record| <= 65536 && DataOf(p.record) == Ok(p.data) && p.data.body.nonresident
    requires |p.data.body.runs| == 1 && p.data.body.runs[0].length >= 2 && p.data.body.runs[0].lcn.Some?
  {
    && Rewritten(p.record, p.data, Split(p.data.body.runs[0], t.to)).Ok?
    && Locate(t.bitmap.body.runs, g.clusterSize, t.to / 8).At?
  }

  /** Once the target is chosen, the operation succeeds if and only if its steps can be taken,
      the record is not the $MFT's, and, for the bitmap's own, both changed bytes lie in the
      cluster that moves; and then it reports a change. */
  lemma ChangeReported(g: Geometry, image: Bytes, v: View, inode: nat, p: Prep, t: Target)
    requires Chosen(g, image, v, inode, p, t) && ClearArray(g, p.record)
    ensures |p.record| <= 65536 && DataOf(p.record) == Ok(p.data) && p.data.body.nonresident
    ensures Fragment(g, image, inode).Ok? <==>
            Passable(g, p, t) && inode != 0 && (inode == FILE_BITMAP ==> BothInLast(g, p, t))
    ensures Fragment(g, image, inode).Ok? ==> Fragment(g, image, inode).value.1.changed
  {
    hide Prepared, Targeted, Rewritten, Relocated, Stored, Verified, Truthful, IsView, Disjoint, ClearArray,
         RoundTrips, Split, Locate, BothInLast, RecordOffset, Volumes.Sound, Moving;
    FragmentMoves(g, image, inode, p, t);
    if Passable(g, p, t) {
      var edited := Rewritten(p.record, p.data, Split(p.data.body.runs[0], t.to)).value;
      var result := MoveCarried(g, image, v, inode, p, t, edited);
      MovingIs(g, image, inode, p, t, edited, result);
      if inode == 0 {
        MftRefused(g, image, v, p, t, edited);
      } else if inode != FILE_BITMAP || BothInLast(g, p, t) {
        MoveVerified(g, image, v, inode, p, t, edited, result);
      } else {
        BitmapRejected(g, image, v, p, t, edited, result);
      }
    } else {
      TargetIsFree(g, image, v, p.data.body.runs[0], t);
      MovingBlocked(g, image, v, inode, p, t);
    }
  }

  /** A record that cannot take the pairs, or a hole at the target's bit, stops the move. */
  lemma MovingBlocked(g: Geometry, image: Bytes, v: View, inode: nat, p: Prep, t: Target)
    requires Aimed(g, image, v, t) && |p.record| == g.recordSize && DataOf(p.record) == Ok(p.data)
        && p.data.body.nonresident
    requires |p.data.body.runs| == 1 && p.data.body.runs[0].lcn.Some? && p.data.body.runs[0].length >= 2
    requires !Passable(g, p, t)
    ensures Moving(g, image, inode, p, t).Err?
  {
    hide Rewritten, Copied, BitWritten, Stored, Verified, RoundTrips, Split, Locate, Disjoint, Owned;
    if Copied(g, image, t).Ok? && BitWritten(g, Copied(g, image, t).value, t.bitmap, t.to, true).Ok? {
      BitPlace(g, Copied(g, image, t).value, t.bitmap, t.to, true);
    }
  }

  lemma FragmentMoves(g: Geometry, image: Bytes, inode: nat, p: Prep, t: Target)
    requires Sane(g) && Prepared(g, image, inode) == Ok(p)
    requires |p.data.body.runs| == 1 && p.data.body.runs[0].length >= 2 && p.data.body.runs[0].lcn.Some?
    requires Targeted(g, image, p.data.body.runs[0]) == Ok(t)
    ensures |p.record| == g.recordSize && DataOf(p.record) == Ok(p.data) && p.data.body.nonresident
    ensures Fragment(g, image, inode) == Moving(g, image, inode, p, t)
  {
    hide Prepared, Targeted, Moving;
  }

  lemma BitmapRejected(g: Geometry, image: Bytes, v: View, p: Prep, t: Target, edited: Bytes, result: Bytes)
    requires Done(g, image, v, FILE_BITMAP, p, t, edited, result) && !BothInLast(g, p, t)
    ensures !Accepted(g, result, FILE_BITMAP, p, t)
  {
    hide Done, InLast, Accepted;
    DoneAim(g, image, v, FILE_BITMAP, p, t, edited, result);
    if Accepted(g, result, FILE_BITMAP, p, t) {
      BitmapMoveOnly(g, image, v, p, t, edited, result, t.to);
      BitmapMoveOnly(g, image, v, p, t, edited, result, t.from);
    }
  }

  /** The verdict once everything up to the final check went through. */
  lemma MovingIs(g: Geometry, image: Bytes, inode: nat, p: Prep, t: Target, edited: Bytes, result: Bytes)
    requires Sane(g) && |p.record| == g.recordSize && DataOf(p.record) == Ok(p.data) && p.data.body.nonresident
    requires |p.data.body.runs| == 1 && p.data.body.runs[0].length >= 2 && p.data.body.runs[0].lcn.Some?
    requires var runs := Split(p.data.body.runs[0], t.to);
             && Rewritten(p.record, p.data, runs) == Ok(edited) && RoundTrips(edited, runs)
             && Relocated(g, image, t).Ok? && Stored(g, Relocated(g, image, t).value, inode, edited) == Ok(result)
    ensures Moving(g, image, inode, p, t).Ok? <==> Accepted(g, result, inode, p, t)
    ensures Moving(g, image, inode, p, t).Ok? ==> Moving(g, image, inode, p, t).value.1.changed
  {
    hide Rewritten, Relocated, Stored, Verified, RoundTrips, Split;
  }
}
