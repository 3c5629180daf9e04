/** The fixture builder's access to an image: stream segments, FILE records found through
    record zero, and single bitmap bits. */
module FixtureImage {
  import opened Bytes
  import opened Arithmetic
  import opened Runlist
  import opened Streams
  import opened FixtureRecords
  import opened Bitmap
  import MS = MultiSector
  import FR = FileRecords
  import RecordStore

  datatype Geometry = Geometry(sectorSize: nat, clusterSize: nat, totalClusters: nat, mftLcn: nat, recordSize: nat)

  /** What geometry() accepts: clusters are whole sectors, records at least one. */
  predicate Sane(g: Geometry) {
    512 <= g.sectorSize <= g.clusterSize && g.sectorSize <= g.recordSize <= 65536
  }

  // ---------- segments ----------

  datatype Segment = Segment(disk: Option<nat>, amount: nat)

  /** The loop of _stream_segments over the remaining runs. */
  function SegmentsFrom(runs: seq<Run>, cs: nat, cursor: nat, remaining: nat): (r: Result<seq<Segment>>) {
    if runs == [] then Err
    else
      var run := runs[0];
      var runStart, runEnd := Span(run.vcn, cs), Span(run.vcn + run.length, cs);
      if cursor >= runEnd then SegmentsFrom(runs[1..], cs, cursor, remaining)
      else if cursor < runStart then Err
      else
        var amount := if remaining < runEnd - cursor then remaining else runEnd - cursor;
        var segment := Segment(DiskOf(run, cs, cursor), amount);
        if amount == remaining then Ok([segment])
        else AfterSegments([segment], SegmentsFrom(runs[1..], cs, cursor + amount, remaining - amount))
  }

  function DiskOf(run: Run, cs: nat, cursor: nat): Option<nat>
    requires Span(run.vcn, cs) <= cursor
  {
    if run.lcn.None? then None else Some(Span(run.lcn.value, cs) + (cursor - Span(run.vcn, cs)))
  }

  function AfterSegments(done: seq<Segment>, r: Result<seq<Segment>>): Result<seq<Segment>> {
    if r.Err? then Err else Ok(done + r.value)
  }

  /** _stream_segments, its bounds tests included. */
  function Segments(g: Geometry, a: Attr, offset: nat, length: nat): Result<seq<Segment>> {
    if !a.body.nonresident || offset + length > a.body.dataSize then Err
    else SegmentsFrom(a.body.runs, g.clusterSize, offset, length)
  }

  lemma SegmentsTurn(runs: seq<Run>, i: nat, cs: nat, cursor: nat, remaining: nat, done: seq<Segment>)
    requires i < |runs|
    ensures var all := AfterSegments(done, SegmentsFrom(runs[i..], cs, cursor, remaining));
            var run := runs[i];
            var runStart, runEnd := Span(run.vcn, cs), Span(run.vcn + run.length, cs);
            if cursor >= runEnd then all == AfterSegments(done, SegmentsFrom(runs[i + 1..], cs, cursor, remaining))
            else if cursor < runStart then all == Err
            else
              var amount := if remaining < runEnd - cursor then remaining else runEnd - cursor;
              var now := done + [Segment(DiskOf(run, cs, cursor), amount)];
              if amount == remaining then all == Ok(now)
              else all == AfterSegments(now, SegmentsFrom(runs[i + 1..], cs, cursor + amount, remaining - amount))
  {
    hide Span;
    var run, tail := runs[i], runs[i..];
    assert tail[0] == run && tail[1..] == runs[i + 1..];
    var runStart, runEnd := Span(run.vcn, cs), Span(run.vcn + run.length, cs);
    if runStart <= cursor < runEnd {
      var amount := if remaining < runEnd - cursor then remaining else runEnd - cursor;
      var segment := Segment(DiskOf(run, cs, cursor), amount);
      if amount != remaining {
        var more := SegmentsFrom(runs[i + 1..], cs, cursor + amount, remaining - amount);
        if more.Ok? {
          assert done + ([segment] + more.value) == done + [segment] + more.value;
        }
      }
    }
  }

  lemma NoSegments(r: Result<seq<Segment>>, runs: seq<Run>, cs: nat, cursor: nat, remaining: nat)
    ensures AfterSegments([], r) == r
    ensures runs == [] ==> SegmentsFrom(runs, cs, cursor, remaining) == Err
  {
    if r.Ok? {
      assert [] + r.value == r.value;
    }
  }

  method StreamSegments(g: Geometry, a: Attr, offset: nat, length: nat) returns (r: Result<seq<Segment>>)
    ensures r == Segments(g, a, offset, length)
  {
    hide SegmentsFrom, Span, AfterSegments;
    if !a.body.nonresident { return Err; }
    if offset + length > a.body.dataSize { return Err; }
    var cs, runs := g.clusterSize, a.body.runs;
    var cursor: nat, remaining: nat := offset, length;
    var done: seq<Segment> := [];
    assert runs[0..] == runs;
    NoSegments(SegmentsFrom(runs, cs, offset, length), [], cs, cursor, remaining);
    for i := 0 to |runs|
      invariant SegmentsFrom(runs, cs, offset, length)
          == AfterSegments(done, SegmentsFrom(runs[i..], cs, cursor, remaining))
    {
      var run := runs[i];
      SegmentsTurn(runs, i, cs, cursor, remaining, done);
      var runStart, runEnd := Span(run.vcn, cs), Span(run.vcn + run.length, cs);
      if cursor >= runEnd { continue; }
      if cursor < runStart { return Err; }
      var amount: nat := if remaining < runEnd - cursor then remaining else runEnd - cursor;
      done := done + [Segment(DiskOf(run, cs, cursor), amount)];
      cursor := cursor + amount;
      remaining := remaining - amount;
      if remaining == 0 { return Ok(done); }
    }
    NoRuns(runs[|runs|..], cs, cursor, remaining, done);
    r := Err;
  }

  lemma NoRuns(runs: seq<Run>, cs: nat, cursor: nat, remaining: nat, done: seq<Segment>)
    requires runs == []
    ensures AfterSegments(done, SegmentsFrom(runs, cs, cursor, remaining)) == Err
  {
  }

  /** The bytes of a list of segments: zeros for a hole, else the image. */
  function Gathered(image: Bytes, segments: seq<Segment>): (r: Result<Bytes>) {
    if segments == [] then Ok([])
    else
      match SegmentBytes(image, segments[0])
      case Err => Err
      case Ok(part) =>
        match Gathered(image, segments[1..])
        case Err => Err
        case Ok(more) => Ok(part + more)
  }

  function SegmentBytes(image: Bytes, s: Segment): (r: Result<Bytes>)
    ensures r.Ok? ==> |r.value| == s.amount
  {
    match s.disk
    case None => Ok(Zeros(s.amount))
    case Some(at) => Slice(image, at, s.amount)
  }

  /** _read_exact */
  function Slice(image: Bytes, at: nat, n: nat): (r: Result<Bytes>)
    ensures r.Ok? ==> |r.value| == n
  {
    if n == 0 then Ok([]) else if at + n > |image| then Err else Ok(image[at..at + n])
  }

  /** read_stream */
  function StreamBytes(g: Geometry, image: Bytes, a: Attr, offset: nat, length: nat): Result<Bytes> {
    match Segments(g, a, offset, length)
    case Err => Err
    case Ok(segments) => Gathered(image, segments)
  }

  method ReadStream(g: Geometry, image: Bytes, a: Attr, offset: nat, length: nat) returns (r: Result<Bytes>)
    ensures r == StreamBytes(g, image, a, offset, length)
  {
    hide SegmentBytes, Segments;
    var segments := StreamSegments(g, a, offset, length);
    if segments.Err? { return Err; }
    var parts: Bytes := [];
    var all := segments.value;
    assert all[0..] == all;
    NoBytes(Gathered(image, all));
    for i := 0 to |all|
      invariant Gathered(image, all) == WithBytes(parts, Gathered(image, all[i..]))
    {
      var part := SegmentBytes(image, all[i]);
      assert all[i..][1..] == all[i + 1..];
      if part.Err? { return Err; }
      GatherTurn(image, all, i, parts);
      parts := parts + part.value;
    }
    assert all[|all|..] == [];
    assert parts + [] == parts;
    r := Ok(parts);
  }

  lemma GatherTurn(image: Bytes, all: seq<Segment>, i: nat, parts: Bytes)
    requires i < |all| && SegmentBytes(image, all[i]).Ok?
    ensures WithBytes(parts, Gathered(image, all[i..]))
         == WithBytes(parts + SegmentBytes(image, all[i]).value, Gathered(image, all[i + 1..]))
  {
    hide SegmentBytes;
    assert all[i..][1..] == all[i + 1..];
    var more := Gathered(image, all[i + 1..]);
    if more.Ok? {
      assert parts + (SegmentBytes(image, all[i]).value + more.value)
          == parts + SegmentBytes(image, all[i]).value + more.value;
    }
  }

  /** The fixture builder reads what the validator reads, for every request of at least one byte. */
  lemma {:induction false} GatheredIsRead(image: Bytes, runs: seq<Run>, cs: nat, cursor: nat, end: nat)
    requires cursor < end
    ensures ReadFrom(image, runs, cs, cursor, end)
         == match SegmentsFrom(runs, cs, cursor, end - cursor) case Err => Err case Ok(s) => Gathered(image, s)
  {
    hide Span;
    if runs != [] {
      var run := runs[0];
      var runStart, runEnd := Span(run.vcn, cs), Span(run.vcn + run.length, cs);
      if cursor >= runEnd {
        GatheredIsRead(image, runs[1..], cs, cursor, end);
      } else if cursor >= runStart {
        var stop := if end < runEnd then end else runEnd;
        var segment := Segment(DiskOf(run, cs, cursor), stop - cursor);
        if stop < end {
          GatheredIsRead(image, runs[1..], cs, stop, end);
          var more := SegmentsFrom(runs[1..], cs, stop, end - stop);
          if more.Ok? {
            assert ([segment] + more.value)[1..] == more.value;
          }
        } else {
          assert [segment][1..] == [];
          OneGathered(image, segment);
        }
      }
    }
  }

  lemma OneGathered(image: Bytes, segment: Segment)
    ensures Gathered(image, [segment]) == SegmentBytes(image, segment)
  {
    hide SegmentBytes;
    assert [segment][1..] == [];
    if SegmentBytes(image, segment).Ok? {
      assert SegmentBytes(image, segment).value + [] == SegmentBytes(image, segment).value;
    }
  }

  /** A request answered by one mapped segment is physically contiguous. */
  lemma {:induction false} OneSegment(runs: seq<Run>, vcn: nat, cs: nat, cursor: nat, n: nat, at: nat)
    requires Contiguous(runs, vcn) && n > 0 && SegmentsFrom(runs, cs, cursor, n) == Ok([Segment(Some(at), n)])
    ensures forall x :: cursor <= x < cursor + n ==> Locate(runs, cs, x) == At(at + (x - cursor))
  {
    hide Span;
    var run := runs[0];
    var runStart, runEnd := Span(run.vcn, cs), Span(run.vcn + run.length, cs);
    if cursor >= runEnd {
      OneSegment(runs[1..], vcn + run.length, cs, cursor, n, at);
      SameTail(runs, cs, cursor, cursor + n);
    } else {
      assert SegmentsFrom(runs, cs, cursor, n).value[0].amount == n;
      assert cursor + n <= runEnd;
    }
  }

  // ---------- records ----------

  function RawZero(g: Geometry, image: Bytes): Result<Bytes> {
    Slice(image, Span(g.mftLcn, g.clusterSize), g.recordSize)
  }

  /** The $MFT's DATA attribute, from the record zero the boot sector points at. */
  function MftData(g: Geometry, image: Bytes): Result<Attr>
    requires Sane(g)
  {
    match RawZero(g, image)
    case Err => Err
    case Ok(raw) =>
      match MS.Decode(raw, g.sectorSize, RecordStore.FILE)
      case Err => Err
      case Ok(zero) => FindFrom(zero, First(zero), FR.AT_DATA, [])
  }

  /** _primary_record_offset: a record must lie in one mapped segment. */
  function RecordOffset(g: Geometry, image: Bytes, n: nat): Result<nat>
    requires Sane(g)
  {
    match MftData(g, image)
    case Err => Err
    case Ok(mft) =>
      match Segments(g, mft, Span(n, g.recordSize), g.recordSize)
      case Err => Err
      case Ok(s) => if |s| == 1 && s[0].disk.Some? && s[0].amount == g.recordSize then Ok(s[0].disk.value) else Err
  }

  /** read_record, the logical bytes. */
  function Record(g: Geometry, image: Bytes, n: nat): (r: Result<Bytes>)
    requires Sane(g)
    ensures r.Ok? ==> |r.value| == g.recordSize
  {
    match RecordOffset(g, image, n)
    case Err => Err
    case Ok(at) =>
      match Slice(image, at, g.recordSize)
      case Err => Err
      case Ok(raw) => MS.Decode(raw, g.sectorSize, RecordStore.FILE)
  }

  /** The unnamed DATA attribute of a record. */
  function DataOf(record: Bytes): Result<Attr>
    requires |record| >= 28
  {
    FindFrom(record, First(record), FR.AT_DATA, [])
  }

  method PrimaryRecordOffset(g: Geometry, image: Bytes, n: nat) returns (r: Result<nat>)
    requires Sane(g)
    ensures r == RecordOffset(g, image, n)
  {
    hide Segments, MS.Decode;
    var raw := RawZero(g, image);
    if raw.Err? { return Err; }
    var zero := MS.FixtureDecode(raw.value, g.sectorSize, RecordStore.FILE);
    if zero.Err? { return Err; }
    var mft := FindAttribute(zero.value, FR.AT_DATA, []);
    if mft.Err? { return Err; }
    var segments := StreamSegments(g, mft.value, Span(n, g.recordSize), g.recordSize);
    if segments.Err? { return Err; }
    var s := segments.value;
    if |s| != 1 || s[0].disk.None? || s[0].amount != g.recordSize { return Err; }
    r := Ok(s[0].disk.value);
  }

  method ReadRecord(g: Geometry, image: Bytes, n: nat) returns (r: Result<Bytes>)
    requires Sane(g)
    ensures r == Record(g, image, n)
  {
    hide MS.Decode, RecordOffset;
    var at := PrimaryRecordOffset(g, image, n);
    if at.Err? { return Err; }
    var raw := Slice(image, at.value, g.recordSize);
    if raw.Err? { return Err; }
    r := MS.FixtureDecode(raw.value, g.sectorSize, RecordStore.FILE);
  }

  /** _write_exact: a write past the end of the file grows it, with zeros in any gap. */
  function FileWrite(image: Bytes, at: nat, p: Bytes): (r: Bytes)
    ensures |image| <= |r|
    ensures at + |p| <= |image| ==> r == Put(image, at, p)
  {
    if at + |p| <= |image| then Put(image, at, p)
    else if p == [] then image
    else Put(image + Zeros(at + |p| - |image|), at, p)
  }

  /** The image after write_record. */
  function Stored(g: Geometry, image: Bytes, n: nat, logical: Bytes): (r: Result<Bytes>)
    requires Sane(g)
    ensures r.Ok? ==> |image| <= |r.value|
  {
    match RecordOffset(g, image, n)
    case Err => Err
    case Ok(at) =>
      if !MS.ArrayOk(logical, g.sectorSize) then Err
      else Ok(FileWrite(image, at, MS.EncodeArray(logical, g.sectorSize)))
  }

  // ---------- bitmap bits ----------

  /** _read_bitmap_bit */
  function BitOf(g: Geometry, image: Bytes, a: Attr, bit: nat): Result<bool> {
    match StreamBytes(g, image, a, bit / 8, 1)
    case Err => Err
    case Ok(s) => if |s| == 1 then Ok(Test(s[0], bit % 8)) else Err
  }

  /** The image after _write_bitmap_bit: an unchanged byte is an error.  The byte was just
      read, so the write never reaches past the end. */
  function BitWritten(g: Geometry, image: Bytes, a: Attr, bit: nat, value: bool): (r: Result<Bytes>)
    ensures r.Ok? ==> |r.value| == |image|
  {
    match StreamBytes(g, image, a, bit / 8, 1)
    case Err => Err
    case Ok(s) =>
      if |s| != 1 || Test(s[0], bit % 8) == value then Err
      else
        match Segments(g, a, bit / 8, 1)
        case Err => Err
        case Ok(segments) =>
          if |segments| != 1 || segments[0].disk.None? || segments[0].disk.value >= |image| then Err
          else Ok(Put(image, segments[0].disk.value, [Flipped(s[0], bit % 8)]))
  }
}
