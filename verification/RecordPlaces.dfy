/** Where the fixture builder finds a FILE record on the image, in plain arithmetic, and that
    the validator's map of the $MFT puts the same bytes there. */
module RecordPlaces {
  import opened Bytes
  import opened Arithmetic
  import opened Runlist
  import opened Streams
  import opened FixtureRecords
  import opened FixtureImage
  import MS = MultiSector
  import FR = FileRecords
  import RecordStore
  import Volumes
  import VolumeKept
  import JournalHeaders

  // ---------- stream bytes ----------

  /** A byte of a run lies as far into the run's clusters as into the run, or in a hole. */
  lemma {:induction false} LocateIs(runs: seq<Run>, vcn: nat, cs: nat, x: nat, i: nat)
    requires Contiguous(runs, vcn) && i < |runs| && runs[i].vcn * cs <= x < (runs[i].vcn + runs[i].length) * cs
    ensures runs[i].lcn.Some? ==> Span(runs[i].lcn.value, cs) == runs[i].lcn.value * cs
    ensures Span(runs[i].vcn, cs) == runs[i].vcn * cs
    ensures Locate(runs, cs, x)
         == match runs[i].lcn
            case None => Hole
            case Some(lcn) => At(Span(lcn, cs) + (x - Span(runs[i].vcn, cs)))
  {
    hide Span;
    SpanIsProduct(runs[i].vcn, cs);
    SpanIsProduct(runs[i].vcn + runs[i].length, cs);
    if runs[i].lcn.Some? { SpanIsProduct(runs[i].lcn.value, cs); }
    if i > 0 {
      LaterStarts(runs, vcn, cs, i);
      LocateIs(runs[1..], vcn + runs[0].length, cs, x, i - 1);
    }
  }

  /** A byte of no run has no place. */
  lemma {:induction false} LocateNot(runs: seq<Run>, cs: nat, x: nat)
    requires forall i :: 0 <= i < |runs| ==> !(runs[i].vcn * cs <= x < (runs[i].vcn + runs[i].length) * cs)
    ensures Locate(runs, cs, x) == Outside
  {
    hide Span;
    if runs != [] {
      SpanIsProduct(runs[0].vcn, cs);
      SpanIsProduct(runs[0].vcn + runs[0].length, cs);
      assert forall i :: 0 <= i < |runs[1..]| ==> runs[1..][i] == runs[i + 1];
      LocateNot(runs[1..], cs, x);
    }
  }

  /** The byte belongs to a run that maps clusters. */
  predicate InRun(runs: seq<Run>, cs: nat, x: nat) {
    exists i :: 0 <= i < |runs| && runs[i].lcn.Some? && runs[i].vcn * cs <= x < (runs[i].vcn + runs[i].length) * cs
  }

  lemma LocatedInRun(runs: seq<Run>, vcn: nat, cs: nat, x: nat)
    requires Contiguous(runs, vcn)
    ensures Locate(runs, cs, x).At? <==> InRun(runs, cs, x)
  {
    hide Locate, Span;
    if i: nat :| i < |runs| && runs[i].vcn * cs <= x < (runs[i].vcn + runs[i].length) * cs {
      LocateIs(runs, vcn, cs, x, i);
      if InRun(runs, cs, x) {
        var k: nat :| k < |runs| && runs[k].lcn.Some? && runs[k].vcn * cs <= x < (runs[k].vcn + runs[k].length) * cs;
        LocateIs(runs, vcn, cs, x, k);
      }
    } else {
      LocateNot(runs, cs, x);
    }
  }

  /** A record can be written exactly when every byte of its place in the $MFT is in a mapped run. */
  lemma RecordMappedIs(g: RecordStore.Geometry, n: nat)
    requires Contiguous(g.mftRuns, 0)
    ensures RecordStore.RecordMapped(g, n) <==>
        forall x: nat :: n * g.recordSize <= x < (n + 1) * g.recordSize ==> InRun(g.mftRuns, 4096, x)
  {
    hide Locate, Span, InRun;
    SpanIsProduct(n, g.recordSize);
    SpanIsProduct(n + 1, g.recordSize);
    forall x: nat { LocatedInRun(g.mftRuns, 0, 4096, x); }
  }

  // ---------- records ----------

  /** Record zero is the record-sized piece of the image at the first $MFT cluster. */
  lemma ZeroPlace(g: Geometry, image: Bytes)
    requires Sane(g)
    ensures RawZero(g, image)
         == if g.mftLcn * g.clusterSize + g.recordSize <= |image|
            then Ok(image[g.mftLcn * g.clusterSize..g.mftLcn * g.clusterSize + g.recordSize]) else Err
  {
    hide Span;
    SpanIsProduct(g.mftLcn, g.clusterSize);
  }

  /** The run holds the stream's bytes [cursor, cursor + n), the first of them at `at`. */
  predicate HeldBy(run: Run, cs: nat, cursor: int, n: nat, at: nat) {
    && run.lcn.Some? && run.vcn * cs <= cursor && cursor + n <= (run.vcn + run.length) * cs
    && at == run.lcn.value * cs + (cursor - run.vcn * cs)
  }

  lemma HeldIs(run: Run, cs: nat, cursor: nat, n: nat, at: nat)
    ensures HeldBy(run, cs, cursor, n, at) <==>
        && run.lcn.Some? && Span(run.vcn, cs) <= cursor && cursor + n <= Span(run.vcn + run.length, cs)
        && at == Span(run.lcn.value, cs) + (cursor - Span(run.vcn, cs))
  {
    hide Span;
    SpanIsProduct(run.vcn, cs);
    SpanIsProduct(run.vcn + run.length, cs);
    if run.lcn.Some? { SpanIsProduct(run.lcn.value, cs); }
  }

  /** One mapped segment answers a request exactly when one run holds all of it. */
  lemma {:induction false} OneSegmentIff(runs: seq<Run>, vcn: nat, cs: nat, cursor: nat, n: nat, at: nat)
    requires Contiguous(runs, vcn) && n > 0
    ensures SegmentsFrom(runs, cs, cursor, n) == Ok([Segment(Some(at), n)]) <==>
        exists i :: 0 <= i < |runs| && HeldBy(runs[i], cs, cursor, n, at)
  {
    hide Span, HeldBy;
    if runs != [] {
      var run := runs[0];
      var runStart, runEnd := Span(run.vcn, cs), Span(run.vcn + run.length, cs);
      HeldIs(run, cs, cursor, n, at);
      OneSegmentIff(runs[1..], vcn + run.length, cs, cursor, n, at);
      assert forall i :: 0 < i < |runs| ==> runs[i] == runs[1..][i - 1];
      assert forall i :: 0 <= i < |runs[1..]| ==> runs[1..][i] == runs[i + 1];
      if cursor < runEnd {
        forall i | 0 < i < |runs| ensures !HeldBy(runs[i], cs, cursor, n, at) {
          LaterStarts(runs, vcn, cs, i);
          HeldIs(runs[i], cs, cursor, n, at);
        }
        FirstSegment(runs, cs, cursor, n);
      }
    }
  }

  lemma FirstSegment(runs: seq<Run>, cs: nat, cursor: nat, n: nat)
    requires runs != [] && cursor < Span(runs[0].vcn + runs[0].length, cs)
    ensures forall at: nat :: SegmentsFrom(runs, cs, cursor, n) == Ok([Segment(Some(at), n)]) <==>
        && Span(runs[0].vcn, cs) <= cursor && cursor + n <= Span(runs[0].vcn + runs[0].length, cs)
        && DiskOf(runs[0], cs, cursor) == Some(at)
  {
    hide Span;
    var run := runs[0];
    var runStart, runEnd := Span(run.vcn, cs), Span(run.vcn + run.length, cs);
    if runStart <= cursor && runEnd - cursor < n {
      var more := SegmentsFrom(runs[1..], cs, runEnd, n - (runEnd - cursor));
      var segment := Segment(DiskOf(run, cs, cursor), runEnd - cursor);
      if more.Ok? {
        assert ([segment] + more.value)[0].amount != n;
      }
    }
  }

  lemma {:induction false} LaterStarts(runs: seq<Run>, vcn: nat, cs: nat, i: nat)
    requires Contiguous(runs, vcn) && 0 < i < |runs|
    ensures Span(runs[0].vcn + runs[0].length, cs) <= Span(runs[i].vcn, cs)
  {
    hide Span;
    if i > 1 {
      LaterStarts(runs[1..], vcn + runs[0].length, cs, i - 1);
      SpanMono(runs[1].vcn, runs[1].vcn + runs[1].length, cs);
    }
  }

  lemma MftContiguous(g: Geometry, image: Bytes)
    requires Sane(g) && MftData(g, image).Ok? && MftData(g, image).value.body.nonresident
    ensures Contiguous(MftData(g, image).value.body.runs, MftData(g, image).value.body.lowestVcn)
  {
    hide FindFrom, RawZero, MS.Decode, AttrAt;
    var zero := MS.Decode(RawZero(g, image).value, g.sectorSize, RecordStore.FILE).value;
    VolumeKept.FoundContiguous(zero, First(zero));
  }

  /** A record has a place exactly when record zero's DATA is mapped, long enough, and one of
      its runs holds the whole record. */
  lemma RecordPlaceIff(g: Geometry, image: Bytes, n: nat, at: nat)
    requires Sane(g) && MftData(g, image).Ok?
    ensures var b := MftData(g, image).value.body;
            RecordOffset(g, image, n) == Ok(at) <==>
            && b.nonresident && (n + 1) * g.recordSize <= b.dataSize
            && exists i :: 0 <= i < |b.runs| && HeldBy(b.runs[i], g.clusterSize, n * g.recordSize, g.recordSize, at)
  {
    hide Span, HeldBy, MftData, SegmentsFrom;
    SpanIsProduct(n, g.recordSize);
    MulSucc(n, g.recordSize);
    var o := Span(n, g.recordSize);
    if MftData(g, image).value.body.nonresident {
      MftContiguous(g, image);
      var b := MftData(g, image).value.body;
      OneSegmentIff(b.runs, b.lowestVcn, g.clusterSize, o, g.recordSize, at);
      var s := SegmentsFrom(b.runs, g.clusterSize, o, g.recordSize);
      if s.Ok? && |s.value| == 1 { assert s.value == [s.value[0]]; }
    }
  }

  /** The validator's map of the same runs puts every byte of the record there. */
  lemma PlaceIsMapped(g: Geometry, image: Bytes, n: nat)
    requires Sane(g) && RecordOffset(g, image, n).Ok?
    ensures forall x: nat :: n * g.recordSize <= x < n * g.recordSize + g.recordSize ==>
        Locate(MftData(g, image).value.body.runs, g.clusterSize, x)
        == At(RecordOffset(g, image, n).value + (x - n * g.recordSize))
  {
    hide Span, MftData, SegmentsFrom, Locate, Contiguous;
    MftContiguous(g, image);
    var b, at, o := MftData(g, image).value.body, RecordOffset(g, image, n).value, Span(n, g.recordSize);
    var s := SegmentsFrom(b.runs, g.clusterSize, o, g.recordSize).value;
    assert s == [s[0]];
    OneSegment(b.runs, b.lowestVcn, g.clusterSize, o, g.recordSize, at);
    SpanIsProduct(n, g.recordSize);
  }

  /** A record's logical bytes are decoded from that place. */
  lemma RecordRead(g: Geometry, image: Bytes, n: nat, at: nat)
    requires Sane(g) && RecordOffset(g, image, n) == Ok(at)
    ensures Record(g, image, n)
         == if at + g.recordSize <= |image|
            then MS.Decode(image[at..at + g.recordSize], g.sectorSize, [0x46, 0x49, 0x4C, 0x45]) else Err
  {
    hide RecordOffset, MS.Decode;
  }

  /** The validator reads record n as the bytes of the $MFT from n times the record size on,
      if the stream is that long. */
  lemma ValidatorRecord(g: RecordStore.Geometry, image: Bytes, n: nat, raw: Bytes)
    requires g.recordSize > 0 && Contiguous(g.mftRuns, 0)
    ensures Span(n, g.recordSize) == n * g.recordSize
    ensures RecordStore.ReadRaw(g, image, n) == Ok(raw) <==>
        && |raw| == g.recordSize && (n + 1) * g.recordSize <= g.mftDataSize
        && JournalHeaders.Holds(image, g.mftRuns, Span(n, g.recordSize), raw)
  {
    hide Locate, ReadFrom, JournalHeaders.Holds;
    SpanIsProduct(n, g.recordSize);
    SpanIsProduct(n + 1, g.recordSize);
    MulSucc(n, g.recordSize);
    if |raw| == g.recordSize {
      JournalHeaders.ReadIs(image, g.mftRuns, Span(n, g.recordSize), raw);
    }
  }

  /** A write puts its bytes at their place, grows the file if it must, fills a gap with zeros,
      and keeps every other byte; a write of nothing changes nothing. */
  lemma WriteBytes(image: Bytes, at: nat, p: Bytes)
    ensures var r := FileWrite(image, at, p);
            && |r| == (if p != [] && |image| < at + |p| then at + |p| else |image|)
            && forall y: nat :: y < |r| ==>
                 r[y] == if at <= y < at + |p| then p[y - at] else if y < |image| then image[y] else 0
  {
  }
}
