/** ensure_fragmented_data: the last cluster of a one-run DATA attribute moves to the
    nearest free cluster, the bitmap follows, and the record's mapping pairs are rewritten. */
module Fragmentation {
  import opened Bytes
  import opened Arithmetic
  import opened Runlist
  import opened FixtureRecords
  import opened FixtureImage
  import opened Bitmap
  import opened Volumes
  import MS = MultiSector

  const FILE_BITMAP: nat := 6
  const FIRST_CANDIDATE: nat := 24

  // ---------- the target cluster ----------

  function Distance(a: nat, b: nat): nat {
    if a < b then b - a else a - b
  }

  predicate Free(bits: Bytes, c: nat) {
    c / 8 < |bits| && !Test(bits[c / 8], c % 8)
  }

  /** `c` is free, and no free candidate below `limit` is nearer, or as near and lower. */
  ghost predicate IsNearest(bits: Bytes, from: nat, limit: nat, c: nat) {
    && FIRST_CANDIDATE <= c < limit && Free(bits, c)
    && forall d :: FIRST_CANDIDATE <= d < limit && Free(bits, d) ==>
         Distance(c, from) < Distance(d, from) || (Distance(c, from) == Distance(d, from) && c <= d)
  }

  /** min(free_clusters, key=distance) over the candidates below `limit`. */
  function Nearest(bits: Bytes, from: nat, limit: nat): (r: Option<nat>)
    ensures r.None? ==> forall c :: FIRST_CANDIDATE <= c < limit ==> !Free(bits, c)
    ensures r.Some? ==> IsNearest(bits, from, limit, r.value)
  {
    if limit <= FIRST_CANDIDATE then None
    else
      var earlier, c := Nearest(bits, from, limit - 1), limit - 1;
      if Free(bits, c) && (earlier.None? || Distance(c, from) < Distance(earlier.value, from)) then Some(c) else earlier
  }

  method NearestFreeCluster(bits: Bytes, from: nat, total: nat) returns (r: Option<nat>)
    ensures r == Nearest(bits, from, total)
  {
    hide Free, IsNearest;
    r := None;
    if total <= FIRST_CANDIDATE { return; }
    for c := FIRST_CANDIDATE to total
      invariant r == Nearest(bits, from, c)
    {
      if Free(bits, c) && (r.None? || Distance(c, from) < Distance(r.value, from)) {
        r := Some(c);
      }
    }
  }

  // ---------- the operation as a function of the image ----------

  datatype Outcome = Outcome(changed: bool, runs: seq<Run>, content: Bytes, releasedLcn: nat, newLcn: nat)

  datatype Prep = Prep(record: Bytes, data: Attr, content: Bytes)

  /** The record, its fully mapped ordinary DATA attribute, and the content. */
  function Prepared(g: Geometry, image: Bytes, inode: nat): (r: Result<Prep>)
    requires Sane(g)
    ensures r.Ok? ==> |r.value.record| == g.recordSize && DataOf(r.value.record) == Ok(r.value.data)
    ensures r.Ok? ==> r.value.data.body.nonresident && Mapped(r.value.data.body.runs)
  {
    match Record(g, image, inode)
    case Err => Err
    case Ok(record) =>
      match DataOf(record)
      case Err => Err
      case Ok(data) =>
        if !data.body.nonresident || data.body.flags != 0 || !Mapped(data.body.runs) then Err
        else
          match StreamBytes(g, image, data, 0, data.body.dataSize)
          case Err => Err
          case Ok(content) => Ok(Prep(record, data, content))
  }

  datatype Target = Target(bitmap: Attr, from: nat, to: nat)

  function LastCluster(run: Run): nat
    requires run.lcn.Some? && run.length >= 2
  {
    run.lcn.value + run.length - 1
  }

  /** The cluster to move, which must be marked, and the free one nearest to it. */
  function Targeted(g: Geometry, image: Bytes, run: Run): (r: Result<Target>)
    requires Sane(g) && run.lcn.Some? && run.length >= 2
    ensures r.Ok? ==> r.value.to < g.totalClusters && r.value.from == LastCluster(run)
  {
    match Record(g, image, FILE_BITMAP)
    case Err => Err
    case Ok(record) =>
      match DataOf(record)
      case Err => Err
      case Ok(bitmap) =>
        match StreamBytes(g, image, bitmap, 0, (g.totalClusters + 7) / 8)
        case Err => Err
        case Ok(bits) =>
          if BitOf(g, image, bitmap, LastCluster(run)) != Ok(true) then Err
          else
            match Nearest(bits, LastCluster(run), g.totalClusters)
            case None => Err
            case Some(to) => Ok(Target(bitmap, LastCluster(run), to))
  }

  /** The record with the two new runs encoded in place of the one. */
  function Rewritten(record: Bytes, data: Attr, runs: seq<Run>): (r: Result<Bytes>)
    requires 28 <= |record| <= 65536 && DataOf(record) == Ok(data) && data.body.nonresident
    ensures r.Ok? ==> |r.value| == |record|
  {
    match EncodePairs(runs, data.body.lowestVcn, 0)
    case Err => Err
    case Ok(encoded) => Replaced(record, data, encoded)
  }

  predicate Whole(g: Geometry, image: Bytes) {
    Span(g.totalClusters, g.clusterSize) <= |image|
  }

  lemma ClusterFits(g: Geometry, image: Bytes, c: nat)
    requires Whole(g, image) && c < g.totalClusters
    ensures Span(c, g.clusterSize) + g.clusterSize <= |image|
  {
    SpanMono(c + 1, g.totalClusters, g.clusterSize);
  }

  /** The old cluster copied over the new one, past the end of a short image if need be. */
  function Copied(g: Geometry, image: Bytes, t: Target): (r: Result<Bytes>)
    ensures r.Ok? ==> |image| <= |r.value|
    ensures r.Ok? && Whole(g, image) && t.to < g.totalClusters ==> |r.value| == |image|
  {
    match Slice(image, Span(t.from, g.clusterSize), g.clusterSize)
    case Err => Err
    case Ok(cluster) =>
      assert Whole(g, image) && t.to < g.totalClusters ==> Span(t.to, g.clusterSize) + g.clusterSize <= |image| by {
        if Whole(g, image) && t.to < g.totalClusters { ClusterFits(g, image, t.to); }
      }
      Ok(FileWrite(image, Span(t.to, g.clusterSize), cluster))
  }

  /** Copy, mark the new cluster, unmark the old one. */
  function Relocated(g: Geometry, image: Bytes, t: Target): (r: Result<Bytes>)
    ensures r.Ok? ==> |image| <= |r.value|
    ensures r.Ok? && Whole(g, image) && t.to < g.totalClusters ==> |r.value| == |image|
  {
    match Copied(g, image, t)
    case Err => Err
    case Ok(copied) =>
      match BitWritten(g, copied, t.bitmap, t.to, true)
      case Err => Err
      case Ok(marked) => BitWritten(g, marked, t.bitmap, t.from, false)
  }

  /** The edited record reads back with the new runs. */
  predicate RoundTrips(edited: Bytes, runs: seq<Run>)
    requires |edited| >= 28
  {
    var a := DataOf(edited);
    a.Ok? && a.value.body.runs == runs && a.value.body.flags == 0
  }

  /** The final re-read: runs, content and both bits. */
  predicate Verified(g: Geometry, image: Bytes, inode: nat, content: Bytes, runs: seq<Run>, t: Target)
    requires Sane(g)
  {
    var record := Record(g, image, inode);
    && record.Ok? && DataOf(record.value).Ok?
    && var a := DataOf(record.value).value;
       && StreamBytes(g, image, a, 0, a.body.dataSize) == Ok(content) && a.body.runs == runs
       && BitOf(g, image, t.bitmap, t.from) == Ok(false) && BitOf(g, image, t.bitmap, t.to) == Ok(true)
  }

  /** The move itself, once the record and the target are known. */
  function Moving(g: Geometry, image: Bytes, inode: nat, p: Prep, t: Target): (r: Result<(Bytes, Outcome)>)
    requires Sane(g)
    requires |p.record| == g.recordSize && DataOf(p.record) == Ok(p.data) && p.data.body.nonresident
    requires |p.data.body.runs| == 1 && p.data.body.runs[0].lcn.Some? && p.data.body.runs[0].length >= 2
  {
    var runs := Split(p.data.body.runs[0], t.to);
    match Rewritten(p.record, p.data, runs)
    case Err => Err
    case Ok(edited) =>
      match Relocated(g, image, t)
      case Err => Err
      case Ok(moved) =>
        if !RoundTrips(edited, runs) then Err
        else
          match Stored(g, moved, inode, edited)
          case Err => Err
          case Ok(result) =>
            if !Verified(g, result, inode, p.content, runs, t) then Err
            else Ok((result, Outcome(true, runs, p.content, t.from, t.to)))
  }

  function Fragment(g: Geometry, image: Bytes, inode: nat): (r: Result<(Bytes, Outcome)>)
    requires Sane(g)
  {
    match Prepared(g, image, inode)
    case Err => Err
    case Ok(p) =>
      var runs := p.data.body.runs;
      if |runs| >= 2 then Ok((image, Outcome(false, runs, p.content, 0, 0)))
      else if |runs| == 0 || runs[0].length < 2 then Err
      else
        match Targeted(g, image, runs[0])
        case Err => Err
        case Ok(t) => Moving(g, image, inode, p, t)
  }

  // ---------- the operation on an image ----------

  class FixtureVolume {
    const g: Geometry
    var image: Bytes

    constructor (g: Geometry, image: Bytes)
      ensures this.g == g && this.image == image
    {
      this.g := g;
      this.image := image;
    }

    /** _write_bitmap_bit */
    method WriteBitmapBit(a: Attr, bit: nat, value: bool) returns (ok: bool)
      modifies this
      ensures ok <==> BitWritten(g, old(image), a, bit, value).Ok?
      ensures image == if ok then BitWritten(g, old(image), a, bit, value).value else old(image)
    {
      hide StreamBytes, Segments, Test, Flipped;
      var current := ReadStream(g, image, a, bit / 8, 1);
      if current.Err? || |current.value| != 1 { return false; }
      if Test(current.value[0], bit % 8) == value { return false; }
      var changed := Flipped(current.value[0], bit % 8);
      var segments := StreamSegments(g, a, bit / 8, 1);
      if segments.Err? || |segments.value| != 1 || segments.value[0].disk.None? { return false; }
      if segments.value[0].disk.value >= |image| { return false; }
      image := Put(image, segments.value[0].disk.value, [changed]);
      ok := true;
    }

    /** write_record */
    method WriteRecord(n: nat, logical: Bytes) returns (ok: bool)
      requires Sane(g)
      modifies this
      ensures ok <==> Stored(g, old(image), n, logical).Ok?
      ensures image == if ok then Stored(g, old(image), n, logical).value else old(image)
    {
      hide RecordOffset, MS.ArrayOk, MS.EncodeArray, FileWrite;
      var at := PrimaryRecordOffset(g, image, n);
      if at.Err? { return false; }
      var raw := MS.FixtureEncode(logical, g.sectorSize);
      if raw.Err? { return false; }
      image := FileWrite(image, at.value, raw.value);
      ok := true;
    }

    method ReadBitmapBit(a: Attr, bit: nat) returns (r: Result<bool>)
      ensures r == BitOf(g, image, a, bit)
    {
      hide StreamBytes, Test;
      var s := ReadStream(g, image, a, bit / 8, 1);
      if s.Err? || |s.value| != 1 { return Err; }
      r := Ok(Test(s.value[0], bit % 8));
    }

    method Prepare(inode: nat) returns (r: Result<Prep>)
      requires Sane(g)
      ensures r == Prepared(g, image, inode)
    {
      hide Record, DataOf, StreamBytes;
      var record := ReadRecord(g, image, inode);
      if record.Err? { return Err; }
      var data := FindData(record.value);
      if data.Err? { return Err; }
      if !data.value.body.nonresident || data.value.body.flags != 0 || !Mapped(data.value.body.runs) { return Err; }
      var content := ReadStream(g, image, data.value, 0, data.value.body.dataSize);
      if content.Err? { return Err; }
      r := Ok(Prep(record.value, data.value, content.value));
    }

    method ChooseTarget(run: Run) returns (r: Result<Target>)
      requires Sane(g) && run.lcn.Some? && run.length >= 2
      ensures r == Targeted(g, image, run)
    {
      hide Record, DataOf, StreamBytes, BitOf, IsNearest;
      var record := ReadRecord(g, image, FILE_BITMAP);
      if record.Err? { return Err; }
      var bitmap := FindData(record.value);
      if bitmap.Err? { return Err; }
      var bits := ReadStream(g, image, bitmap.value, 0, (g.totalClusters + 7) / 8);
      if bits.Err? { return Err; }
      var oldLcn := run.lcn.value + run.length - 1;
      var marked := ReadBitmapBit(bitmap.value, oldLcn);
      if marked != Ok(true) { return Err; }
      var newLcn := NearestFreeCluster(bits.value, oldLcn, g.totalClusters);
      if newLcn.None? { return Err; }
      r := Ok(Target(bitmap.value, oldLcn, newLcn.value));
    }

    /** The cluster copy and the two bitmap writes. */
    method Relocate(t: Target) returns (ok: bool)
      modifies this
      ensures ok <==> Relocated(g, old(image), t).Ok?
      ensures ok ==> image == Relocated(g, old(image), t).value
    {
      hide BitWritten, FileWrite;
      var cluster := Slice(image, Span(t.from, g.clusterSize), g.clusterSize);
      if cluster.Err? { return false; }
      image := FileWrite(image, Span(t.to, g.clusterSize), cluster.value);
      ok := WriteBitmapBit(t.bitmap, t.to, true);
      if !ok { return; }
      ok := WriteBitmapBit(t.bitmap, t.from, false);
    }

    method Verify(inode: nat, content: Bytes, runs: seq<Run>, t: Target) returns (ok: bool)
      requires Sane(g)
      ensures ok == Verified(g, image, inode, content, runs, t)
    {
      hide Record, DataOf, StreamBytes, BitOf;
      var record := ReadRecord(g, image, inode);
      if record.Err? { return false; }
      var a := FindData(record.value);
      if a.Err? { return false; }
      var after := ReadStream(g, image, a.value, 0, a.value.body.dataSize);
      var released := ReadBitmapBit(t.bitmap, t.from);
      var marked := ReadBitmapBit(t.bitmap, t.to);
      ok := after == Ok(content) && a.value.body.runs == runs && released == Ok(false) && marked == Ok(true);
    }

    /** On success the image and the outcome are those of Fragment, and it succeeds exactly
        when Fragment does; a failure may leave the image half changed, as in the source. */
    method EnsureFragmentedData(inode: nat) returns (r: Result<Outcome>)
      requires Sane(g)
      modifies this
      ensures r.Ok? <==> Fragment(g, old(image), inode).Ok?
      ensures r.Ok? ==> (image, r.value) == Fragment(g, old(image), inode).value
    {
      hide Prepared, Targeted, Rewritten, Relocated, RoundTrips, Stored, Verified, Split;
      var prep := Prepare(inode);
      if prep.Err? { return Err; }
      var p := prep.value;
      var runs := p.data.body.runs;
      if |runs| >= 2 { return Ok(Outcome(false, runs, p.content, 0, 0)); }
      if |runs| == 0 || runs[0].length < 2 { return Err; }
      var target := ChooseTarget(runs[0]);
      if target.Err? { return Err; }
      var t := target.value;
      var relocated := Split(runs[0], t.to);
      var edited := RewriteRecord(p.record, p.data, relocated);
      if edited.Err? { return Err; }
      var ok := Relocate(t);
      if !ok { return Err; }
      if !RoundTrips(edited.value, relocated) { return Err; }
      ok := WriteRecord(inode, edited.value);
      if !ok { return Err; }
      ok := Verify(inode, p.content, relocated, t);
      if !ok { return Err; }
      r := Ok(Outcome(true, relocated, p.content, t.from, t.to));
    }
  }

  method FindData(record: Bytes) returns (r: Result<Attr>)
    requires |record| >= 28
    ensures r == DataOf(record)
  {
    r := FindAttribute(record, 0x80, []);
  }

  method RewriteRecord(record: Bytes, data: Attr, runs: seq<Run>) returns (r: Result<Bytes>)
    requires 28 <= |record| <= 65536 && DataOf(record) == Ok(data) && data.body.nonresident
    ensures r == Rewritten(record, data, runs)
  {
    hide Replaced;
    var encoded := EncodeMappingPairs(runs, data.body.lowestVcn);
    if encoded.Err? { return Err; }
    r := ReplacePairs(record, data, encoded.value);
  }
}
