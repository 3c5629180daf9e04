/** FILE records on the device: the $MFT stream, fixups and all. */
module RecordStore {
  import opened Bytes
  import opened Arithmetic
  import opened Runlist
  import opened Streams
  import MS = MultiSector

  /** The release profile fixes both sizes. */
  const SECTOR: nat := 512
  const CLUSTER: nat := 4096
  /** b"FILE" */
  const FILE: Bytes := [0x46, 0x49, 0x4C, 0x45]

  /** What the volume's constructor has read and checked. */
  datatype Geometry = Geometry(recordSize: nat, mftDataSize: nat, totalClusters: nat, mftRuns: seq<Run>)

  /** _validate_runs: every mapped run ends inside the volume. */
  predicate InVolume(runs: seq<Run>, totalClusters: nat) {
    forall i :: 0 <= i < |runs| && runs[i].lcn.Some? ==> runs[i].lcn.value + runs[i].length <= totalClusters
  }

  ghost predicate Sound(g: Geometry, deviceSize: nat) {
    && 512 <= g.recordSize <= 65536
    && Contiguous(g.mftRuns, 0) && InVolume(g.mftRuns, g.totalClusters)
    && Span(g.totalClusters, CLUSTER) <= deviceSize
  }

  /** Every place a sound run list names is on the device. */
  lemma {:induction false} LocateInVolume(runs: seq<Run>, totalClusters: nat, cs: nat, x: nat)
    requires InVolume(runs, totalClusters) && Locate(runs, cs, x).At?
    ensures Locate(runs, cs, x).device < Span(totalClusters, cs)
  {
    var run := runs[0];
    if Span(run.vcn, cs) <= x < Span(run.vcn + run.length, cs) {
      SpanAdd(run.vcn, run.length, cs);
      SpanAdd(run.lcn.value, run.length, cs);
      SpanMono(run.lcn.value + run.length, totalClusters, cs);
    } else {
      LocateInVolume(runs[1..], totalClusters, cs, x);
    }
  }

  // ---------- reading ----------

  function ReadRaw(g: Geometry, image: Bytes, number: nat): (r: Result<Bytes>)
    ensures r.Ok? ==> |r.value| == g.recordSize
  {
    if Span(number + 1, g.recordSize) > g.mftDataSize then Err
    else ReadFrom(image, g.mftRuns, CLUSTER, Span(number, g.recordSize), Span(number + 1, g.recordSize))
  }

  /** read_file_record_logical */
  function ReadRecord(g: Geometry, image: Bytes, number: nat): (r: Result<Bytes>)
    ensures r.Ok? ==> |r.value| == g.recordSize
  {
    match ReadRaw(g, image, number)
    case Err => Err
    case Ok(raw) => MS.Decode(raw, SECTOR, FILE)
  }

  /** Some byte of record `number` is stored at device byte y. */
  ghost predicate RecordTouches(g: Geometry, number: nat, y: nat) {
    Touches(g.mftRuns, CLUSTER, Span(number, g.recordSize), Span(number + 1, g.recordSize), y)
  }

  ghost predicate RecordMapped(g: Geometry, number: nat) {
    AllMapped(g.mftRuns, CLUSTER, Span(number, g.recordSize), Span(number + 1, g.recordSize))
  }

  // ---------- writing ----------

  /** The device before and after record `number` is written with these raw bytes. */
  ghost predicate RecordWritten(g: Geometry, image: Bytes, result: Bytes, number: nat, raw: Bytes) {
    |raw| == g.recordSize && Written(image, result, g.mftRuns, CLUSTER, Span(number, g.recordSize), raw)
  }

  /** The record written reads back as encoded, and decodes to the logical bytes
      outside the fixup array. */
  lemma WrittenReadsBack(g: Geometry, image: Bytes, result: Bytes, number: nat, logical: Bytes)
    requires Sound(g, |image|) && |logical| == g.recordSize && MS.Protectable(logical, SECTOR, FILE)
    requires Span(number + 1, g.recordSize) <= g.mftDataSize
    requires RecordWritten(g, image, result, number, MS.EncodeArray(logical, SECTOR))
    ensures var r := ReadRecord(g, result, number);
            r.Ok? && forall j :: 0 <= j < |logical| && !MS.InArray(logical, j) ==> r.value[j] == logical[j]
  {
    hide ReadFrom, Written, MS.Decode, MS.EncodeArray, MS.ArrayOk, MS.ArrayFree;
    MS.RoundTrip(logical, SECTOR, FILE);
    WriteThenRead(image, result, g.mftRuns, 0, CLUSTER, Span(number, g.recordSize), MS.EncodeArray(logical, SECTOR));
  }

  /** Distinct records of an injective $MFT share no device byte. */
  lemma RecordsApart(g: Geometry, m: nat, n: nat, x: nat)
    requires Injective(g.mftRuns, CLUSTER) && m != n
    requires Span(m, g.recordSize) <= x < Span(m + 1, g.recordSize) && Locate(g.mftRuns, CLUSTER, x).At?
    ensures !RecordTouches(g, n, Locate(g.mftRuns, CLUSTER, x).device)
  {
    hide Locate;
    SpanMono(m + 1, if m < n then n else m + 1, g.recordSize);
    SpanMono(n + 1, if n < m then m else n + 1, g.recordSize);
    forall z: nat | Span(n, g.recordSize) <= z < Span(n + 1, g.recordSize) && Locate(g.mftRuns, CLUSTER, z).At?
      ensures Locate(g.mftRuns, CLUSTER, z) != Locate(g.mftRuns, CLUSTER, x)
    {
      assert z < x || x < z;
    }
  }

  /** Writing one record leaves every other record as it was. */
  lemma OtherRecordsKept(g: Geometry, image: Bytes, result: Bytes, n: nat, raw: Bytes, m: nat)
    requires Sound(g, |image|) && Injective(g.mftRuns, CLUSTER) && m != n
    requires RecordWritten(g, image, result, n, raw)
    ensures ReadRaw(g, result, m) == ReadRaw(g, image, m) && ReadRecord(g, result, m) == ReadRecord(g, image, m)
  {
    hide Locate, ReadFrom, MS.Decode;
    var lo, hi := Span(m, g.recordSize), Span(m + 1, g.recordSize);
    forall x | lo <= x < hi && Locate(g.mftRuns, CLUSTER, x).At? && Locate(g.mftRuns, CLUSTER, x).device < |image|
      ensures result[Locate(g.mftRuns, CLUSTER, x).device] == image[Locate(g.mftRuns, CLUSTER, x).device]
    {
      RecordsApart(g, m, n, x);
    }
    ReadFrame(image, result, g.mftRuns, 0, CLUSTER, lo, hi);
  }

  /** Ranges of a run list inside the volume lie on the device. */
  lemma RangesOnDevice(g: Geometry, runs: seq<Run>, size: nat, ranges: seq<Range>, lo: nat, hi: nat)
    requires Sound(g, size) && InVolume(runs, g.totalClusters) && Tiles(ranges, lo, hi)
        && AllFaithful(ranges, runs, CLUSTER)
    ensures OnDevice(ranges, size)
  {
    hide Locate;
    forall i | 0 <= i < |ranges|
      ensures ranges[i].device + ranges[i].bytes <= size
    {
      TilesAbove(ranges, lo, hi, i);
      assert Faithful(ranges[i], runs, CLUSTER);
      var last := ranges[i].stream + ranges[i].bytes - 1;
      assert Locate(runs, CLUSTER, last) == At(ranges[i].device + ranges[i].bytes - 1);
      LocateInVolume(runs, g.totalClusters, CLUSTER, last);
    }
  }
}
