/** validate_journal's proof of the journal's allocation: its run list, its
    ownership and its bits in $Bitmap. */
module JournalAllocation {
  import opened Bytes
  import opened Arithmetic
  import opened Runlist
  import opened Streams
  import opened FileRecords
  import opened RecordStore
  import FC = FlagCopies
  import C = Census
  import Bitmap

  /** A parsed FILE record. */
  datatype FileRecord = FileRecord(number: nat, fixed: Bytes, attributes: seq<Attribute>)

  predicate WellFormed(r: FileRecord) {
    |r.fixed| >= 48 && FC.AllInside(r.attributes, |r.fixed|)
  }

  // ---------- non-resident attributes ----------

  datatype Sizes = Sizes(room: nat, logical: nat, initialized: nat)

  /** stream_sizes */
  function StreamSizes(fixed: Bytes, a: Attribute): (r: Result<Sizes>)
    requires Inside(a, |fixed|)
  {
    if !a.nonresident || a.length < 64 then Err
    else Ok(Sizes(U64(fixed, a.offset + 40), U64(fixed, a.offset + 48), U64(fixed, a.offset + 56)))
  }

  /** Attribute.runs: an empty list only for a stream that is empty in every field. */
  function AttributeRuns(fixed: Bytes, a: Attribute): (r: Result<seq<Run>>)
    requires Inside(a, |fixed|)
  {
    match StreamSizes(fixed, a)
    case Err => Err
    case Ok(sizes) =>
      var runOffset := U16(fixed, a.offset + 32);
      if runOffset < 64 || runOffset >= a.length then Err
      else
        var empty := a.flags == 0 && U64(fixed, a.offset + 16) == 0
                     && U64(fixed, a.offset + 24) == 0xFFFF_FFFF_FFFF_FFFF && sizes == Sizes(0, 0, 0);
        Runs(fixed[a.offset + runOffset..a.offset + a.length], 0, empty)
  }

  lemma RunsContiguous(fixed: Bytes, a: Attribute)
    requires Inside(a, |fixed|) && AttributeRuns(fixed, a).Ok?
    ensures Contiguous(AttributeRuns(fixed, a).value, 0)
  {
    hide DecodePairs;
    var runOffset := U16(fixed, a.offset + 32);
    DecodedContiguous(fixed[a.offset + runOffset..a.offset + a.length], 0, 0);
  }

  /** The non-resident attributes of a record, for the census. */
  function StreamsOf(fixed: Bytes, attrs: seq<Attribute>): (r: seq<C.Stream>)
    requires FC.AllInside(attrs, |fixed|)
  {
    if attrs == [] then []
    else (if attrs[0].nonresident
          then [C.Stream(attrs[0].typeCode, Name(fixed, attrs[0]), AttributeRuns(fixed, attrs[0]))] else [])
         + StreamsOf(fixed, attrs[1..])
  }

  function StreamsOfRecord(r: FileRecord): C.Streams
    requires WellFormed(r)
  {
    C.Streams(r.number, StreamsOf(r.fixed, r.attributes))
  }

  predicate AllWellFormed(records: seq<FileRecord>) {
    forall i :: 0 <= i < |records| ==> WellFormed(records[i])
  }

  /** The allocated records of the scan, as the census walks them. */
  function Scan(records: seq<FileRecord>): (r: seq<C.Streams>)
    requires AllWellFormed(records)
  {
    if records == [] then []
    else
      assert WellFormed(records[0]);
      [StreamsOfRecord(records[0])] + Scan(records[1..])
  }

  // ---------- the journal among the claims ----------

  function JournalOwner(number: nat): C.Owner {
    C.Owner(number, AT_DATA, [])
  }

  /** The $DATA attributes of a record. */
  function DataAttributes(attrs: seq<Attribute>): (r: seq<Attribute>)
    ensures forall i :: 0 <= i < |r| ==> r[i] in attrs && r[i].typeCode == AT_DATA
  {
    if attrs == [] then []
    else (if attrs[0].typeCode == AT_DATA then [attrs[0]] else []) + DataAttributes(attrs[1..])
  }

  lemma {:induction false} OwnConcat(a: seq<C.Claim>, b: seq<C.Claim>, o: C.Owner)
    ensures C.Own(a + b, o) == C.Own(a, o) + C.Own(b, o)
  {
    if a == [] {
      assert a + b == b;
    } else {
      OwnConcat(a[1..], b, o);
      assert (a + b)[1..] == a[1..] + b && (a + b)[0] == a[0];
      var head := if a[0].owner == o then [a[0]] else [];
      assert head + (C.Own(a[1..], o) + C.Own(b, o)) == head + C.Own(a[1..], o) + C.Own(b, o);
    }
  }

  lemma {:induction false} OwnOfRuns(owner: C.Owner, runs: seq<Run>, o: C.Owner)
    ensures C.Own(C.RunClaims(owner, runs), o) == if owner == o then C.RunClaims(owner, runs) else []
  {
    if runs != [] {
      OwnOfRuns(owner, runs[1..], o);
      var head := if runs[0].lcn.Some? then [C.Claim(owner, runs[0].lcn.value, runs[0].length)] else [];
      OwnConcat(head, C.RunClaims(owner, runs[1..]), o);
    }
  }

  /** What a record other than the journal's claims is not the journal's. */
  lemma {:induction false} ForeignRecord(inode: nat, streams: seq<C.Stream>, o: C.Owner)
    requires inode != o.inode && C.StreamClaims(inode, streams).Ok?
    ensures C.Own(C.StreamClaims(inode, streams).value, o) == []
  {
    if streams != [] {
      ForeignRecord(inode, streams[1..], o);
      var claims := C.RunClaims(C.OwnerOf(inode, streams[0]), streams[0].runs.value);
      OwnOfRuns(C.OwnerOf(inode, streams[0]), streams[0].runs.value, o);
      OwnConcat(claims, C.StreamClaims(inode, streams[1..]).value, o);
    }
  }

  /** In the journal's own record only the one unnamed $DATA claims as the journal. */
  lemma {:induction false} JournalRecord(number: nat, fixed: Bytes, attrs: seq<Attribute>)
    requires FC.AllInside(attrs, |fixed|) && C.StreamClaims(number, StreamsOf(fixed, attrs)).Ok?
    requires forall i :: 0 <= i < |DataAttributes(attrs)| ==>
        DataAttributes(attrs)[i].nameLength == 0 && DataAttributes(attrs)[i].nonresident
    requires |DataAttributes(attrs)| <= 1
    ensures var own := C.Own(C.StreamClaims(number, StreamsOf(fixed, attrs)).value, JournalOwner(number));
            if DataAttributes(attrs) == [] then own == []
            else
              var runs := AttributeRuns(fixed, DataAttributes(attrs)[0]);
              runs.Ok? && own == C.RunClaims(JournalOwner(number), runs.value)
  {
    hide AttributeRuns;
    if attrs != [] {
      var a, o := attrs[0], JournalOwner(number);
      assert a.typeCode == AT_DATA ==> DataAttributes(attrs)[0] == a && DataAttributes(attrs[1..]) == [];
      assert a.typeCode != AT_DATA ==> DataAttributes(attrs[1..]) == DataAttributes(attrs);
      if a.nonresident {
        var s := C.Stream(a.typeCode, Name(fixed, a), AttributeRuns(fixed, a));
        assert StreamsOf(fixed, attrs) == [s] + StreamsOf(fixed, attrs[1..]);
        assert StreamsOf(fixed, attrs)[1..] == StreamsOf(fixed, attrs[1..]);
        JournalRecord(number, fixed, attrs[1..]);
        OwnOfRuns(C.OwnerOf(number, s), s.runs.value, o);
        OwnConcat(C.RunClaims(C.OwnerOf(number, s), s.runs.value),
            C.StreamClaims(number, StreamsOf(fixed, attrs[1..])).value, o);
      } else {
        assert StreamsOf(fixed, attrs) == StreamsOf(fixed, attrs[1..]);
        JournalRecord(number, fixed, attrs[1..]);
      }
    }
  }

  /** The scan holds the journal's record once, at place k. */
  predicate Holds(records: seq<FileRecord>, record: FileRecord, k: nat) {
    && k < |records| && records[k] == record
    && forall i :: 0 <= i < |records| && i != k ==> records[i].number != record.number
  }

  lemma {:induction false} NoJournal(records: seq<FileRecord>, number: nat)
    requires AllWellFormed(records) && C.Claims(Scan(records)).Ok?
    requires forall i :: 0 <= i < |records| ==> records[i].number != number
    ensures C.Own(C.Claims(Scan(records)).value, JournalOwner(number)) == []
  {
    hide StreamsOf;
    if records != [] {
      var r := records[0];
      assert Scan(records)[1..] == Scan(records[1..]);
      NoJournal(records[1..], number);
      ForeignRecord(r.number, StreamsOf(r.fixed, r.attributes), JournalOwner(number));
      OwnConcat(C.StreamClaims(r.number, StreamsOf(r.fixed, r.attributes)).value, C.Claims(Scan(records[1..])).value,
          JournalOwner(number));
    }
  }

  /** The record has one $DATA attribute, unnamed and non-resident. */
  predicate OneData(r: FileRecord) {
    |DataAttributes(r.attributes)| == 1 && DataAttributes(r.attributes)[0].nameLength == 0
        && DataAttributes(r.attributes)[0].nonresident
  }

  /** The claims made in the journal's name are exactly the journal's runs. */
  lemma {:induction false} JournalAmongClaims(records: seq<FileRecord>, record: FileRecord, k: nat)
    requires AllWellFormed(records) && Holds(records, record, k) && OneData(record) && C.Claims(Scan(records)).Ok?
    ensures WellFormed(record) && Inside(DataAttributes(record.attributes)[0], |record.fixed|)
    ensures var runs := AttributeRuns(record.fixed, DataAttributes(record.attributes)[0]);
            runs.Ok? && C.Own(C.Claims(Scan(records)).value, JournalOwner(record.number))
                == C.RunClaims(JournalOwner(record.number), runs.value)
  {
    hide StreamsOf, AttributeRuns;
    var r, o := records[0], JournalOwner(record.number);
    assert Scan(records)[1..] == Scan(records[1..]);
    var first, more := C.StreamClaims(r.number, StreamsOf(r.fixed, r.attributes)).value,
        C.Claims(Scan(records[1..])).value;
    OwnConcat(first, more, o);
    if k == 0 {
      assert DataAttributes(r.attributes)[0] in r.attributes;
      NoJournal(records[1..], record.number);
      JournalRecord(r.number, r.fixed, r.attributes);
    } else {
      ForeignRecord(r.number, StreamsOf(r.fixed, r.attributes), o);
      JournalAmongClaims(records[1..], record, k - 1);
    }
  }

  // ---------- positive lengths ----------

  lemma {:induction false} RunClaimsPositive(owner: C.Owner, runs: seq<Run>, vcn: nat, i: nat)
    requires Contiguous(runs, vcn) && i < |C.RunClaims(owner, runs)|
    ensures C.RunClaims(owner, runs)[i].length > 0
  {
    var d := if runs[0].lcn.Some? then 1 else 0;
    if i >= d {
      RunClaimsPositive(owner, runs[1..], vcn + runs[0].length, i - d);
    }
  }

  predicate Positive(claims: seq<C.Claim>) {
    forall i :: 0 <= i < |claims| ==> claims[i].length > 0
  }

  lemma {:induction false} StreamClaimsPositive(number: nat, fixed: Bytes, attrs: seq<Attribute>)
    requires FC.AllInside(attrs, |fixed|) && C.StreamClaims(number, StreamsOf(fixed, attrs)).Ok?
    ensures Positive(C.StreamClaims(number, StreamsOf(fixed, attrs)).value)
  {
    hide AttributeRuns;
    if attrs != [] {
      var a := attrs[0];
      if a.nonresident {
        var s := C.Stream(a.typeCode, Name(fixed, a), AttributeRuns(fixed, a));
        assert StreamsOf(fixed, attrs) == [s] + StreamsOf(fixed, attrs[1..]);
        assert StreamsOf(fixed, attrs)[1..] == StreamsOf(fixed, attrs[1..]);
        RunsContiguous(fixed, a);
        forall i | 0 <= i < |C.RunClaims(C.OwnerOf(number, s), s.runs.value)|
          ensures C.RunClaims(C.OwnerOf(number, s), s.runs.value)[i].length > 0
        {
          RunClaimsPositive(C.OwnerOf(number, s), s.runs.value, 0, i);
        }
      } else {
        assert StreamsOf(fixed, attrs) == StreamsOf(fixed, attrs[1..]);
      }
      StreamClaimsPositive(number, fixed, attrs[1..]);
    }
  }

  lemma {:induction false} ClaimsPositive(records: seq<FileRecord>)
    requires AllWellFormed(records) && C.Claims(Scan(records)).Ok?
    ensures Positive(C.Claims(Scan(records)).value)
  {
    hide StreamsOf;
    if records != [] {
      assert Scan(records)[1..] == Scan(records[1..]);
      StreamClaimsPositive(records[0].number, records[0].fixed, records[0].attributes);
      ClaimsPositive(records[1..]);
    }
  }

  // ---------- validate_journal ----------

  /** Every cluster of every run is marked in the bitmap. */
  predicate AllMarked(runs: seq<Run>, bitmap: Bytes)
    requires Mapped(runs)
  {
    forall i, c :: 0 <= i < |runs| && runs[i].lcn.value <= c < runs[i].lcn.value + runs[i].length ==>
        Bitmap.IsSet(bitmap, c)
  }

  /** interval_overlap */
  predicate Overlap(a: Run, b: Run) {
    a.lcn.Some? && b.lcn.Some? && a.lcn.value < b.lcn.value + b.length && b.lcn.value < a.lcn.value + a.length
  }

  /** Where the journal's byte x is stored, as an offset and as a cluster. */
  ghost predicate PlacedSoundly(runs: seq<Run>, claims: seq<C.Claim>, journal: C.Owner, bitmap: Bytes, total: nat,
      x: nat) {
    var p := Locate(runs, CLUSTER, x);
    && p.At? && p.device < Span(total, CLUSTER)
    && Bitmap.IsSet(bitmap, p.device / CLUSTER)
    && C.OwnersOf(claims, p.device / CLUSTER) == [journal]
  }

  /** What an accepted journal's allocation amounts to: every byte of it has a place of
      its own inside the volume, in a cluster marked allocated and owned by nothing else. */
  ghost predicate AllocationProved(runs: seq<Run>, claims: seq<C.Claim>, journal: C.Owner, bitmap: Bytes, total: nat,
      size: nat) {
    && (forall x :: 0 <= x < size ==> PlacedSoundly(runs, claims, journal, bitmap, total, x))
    && Injective(runs, CLUSTER)
  }

  /** The cluster of a mapped byte belongs to the run that maps it. */
  lemma ClusterInRun(runs: seq<Run>, x: nat) returns (i: nat)
    requires Locate(runs, CLUSTER, x).At?
    ensures i < |runs| && runs[i].lcn.Some?
    ensures var c := Locate(runs, CLUSTER, x).device / CLUSTER;
            runs[i].lcn.value <= c < runs[i].lcn.value + runs[i].length
  {
    hide Locate, Span;
    i := LocatingRun(runs, CLUSTER, x);
    SpanIsProduct(runs[i].lcn.value, CLUSTER);
    SpanIsProduct(runs[i].lcn.value + runs[i].length, CLUSTER);
  }

  lemma ExtentsApartAgrees(runs: seq<Run>)
    requires Mapped(runs) && C.PairwiseApart(C.Extents(runs))
    ensures ExtentsApart(runs)
  {
    forall i, j | 0 <= i < j < |runs|
      ensures runs[i].lcn.value + runs[i].length <= runs[j].lcn.value
          || runs[j].lcn.value + runs[j].length <= runs[i].lcn.value
    {
      assert C.Apart(C.Extents(runs)[i], C.Extents(runs)[j]);
    }
  }

  lemma AcceptedAllocation(records: seq<FileRecord>, record: FileRecord, k: nat, runs: seq<Run>, bitmap: Bytes,
      total: nat, size: nat)
    requires AllWellFormed(records) && Holds(records, record, k) && OneData(record) && WellFormed(record)
    requires Inside(DataAttributes(record.attributes)[0], |record.fixed|)
    requires AttributeRuns(record.fixed, DataAttributes(record.attributes)[0]) == Ok(runs)
    requires InVolume(runs, total) && Mapped(runs) && Span(SumLengths(runs), CLUSTER) == size
    requires C.CensusAccepts(Scan(records), JournalOwner(record.number), runs, total) && AllMarked(runs, bitmap)
    ensures C.Claims(Scan(records)).Ok?
    ensures AllocationProved(runs, C.Claims(Scan(records)).value, JournalOwner(record.number), bitmap, total, size)
  {
    hide Scan, AttributeRuns, C.Claims, C.OwnersOf, Locate, Span, Injective, C.Own, DataAttributes, C.RecordPasses,
         C.PairwiseApart;
    var journal := JournalOwner(record.number);
    C.RecordsPass(Scan(records), journal, C.Extents(runs), total);
    var claims := C.Claims(Scan(records)).value;
    JournalAmongClaims(records, record, k);
    ExtentsApartAgrees(runs);
    ExtentsInjective(runs, CLUSTER);
    RunsContiguous(record.fixed, DataAttributes(record.attributes)[0]);
    forall x | 0 <= x < size
      ensures PlacedSoundly(runs, claims, journal, bitmap, total, x)
    {
      assert Span(0, CLUSTER) == 0 by { SpanIsProduct(0, CLUSTER); }
      LocateCovered(runs, 0, CLUSTER, x);
      NoHoleLocated(runs, x);
      LocateInVolume(runs, total, CLUSTER, x);
      var i := ClusterInRun(runs, x);
      var c := Locate(runs, CLUSTER, x).device / CLUSTER;
      assert C.InRuns(runs, c);
      C.AcceptedIsUnique(claims, journal, runs, total, c);
    }
  }

  lemma {:induction false} NoHoleLocated(runs: seq<Run>, x: nat)
    requires Mapped(runs)
    ensures !Locate(runs, CLUSTER, x).Hole?
  {
    hide Span;
    if runs != [] {
      assert runs[0].lcn.Some?;
      NoHoleLocated(runs[1..], x);
    }
  }

  /** The runs of the metadata streams ($MFT, $MFTMirr, $LogFile, $Bitmap, $Boot) that are
      not resident, each of which must decode and be sound. */
  predicate ClearOfMetadata(runs: seq<Run>, metadata: seq<seq<Run>>) {
    forall i, j, k :: 0 <= i < |runs| && 0 <= j < |metadata| && 0 <= k < |metadata[j]| ==>
        !Overlap(runs[i], metadata[j][k])
  }

  /** The tests on the journal's own record: one plain non-resident $DATA of the required
      size whose mapped runs lie in the volume and add up to it. */
  predicate Eligible(record: FileRecord, total: nat, size: nat, requireOneRun: bool)
    requires WellFormed(record)
  {
    && U16(record.fixed, 22) / 2 % 2 == 0 && U64(record.fixed, 32) == 0 && U16(record.fixed, 18) == 1
    && (forall i :: 0 <= i < |record.attributes| ==> record.attributes[i].typeCode != AT_ATTRIBUTE_LIST)
    && OneData(record) && size % CLUSTER == 0
    && var data := DataAttributes(record.attributes)[0];
       && data in record.attributes && data.flags == 0
       && StreamSizes(record.fixed, data) == Ok(Sizes(size, size, size))
       && AttributeRuns(record.fixed, data).Ok?
       && var runs := AttributeRuns(record.fixed, data).value;
          InVolume(runs, total) && Mapped(runs) && Span(SumLengths(runs), CLUSTER) == size
              && (requireOneRun ==> |runs| == 1)
  }

  /** Accepted: an eligible record whose clusters are marked, clear of the metadata
      streams, and owned by the journal alone, in a scan whose runs all lie in the volume. */
  ghost predicate Accepted(record: FileRecord, records: seq<FileRecord>, metadata: seq<seq<Run>>,
                           bitmap: Bytes, total: nat, size: nat, requireOneRun: bool)
    requires AllWellFormed(records) && WellFormed(record)
  {
    && Eligible(record, total, size, requireOneRun) && C.Claims(Scan(records)).Ok?
    && var claims, runs := C.Claims(Scan(records)).value,
       AttributeRuns(record.fixed, DataAttributes(record.attributes)[0]).value;
       && (forall i :: 0 <= i < |claims| ==> claims[i].lcn + claims[i].length <= total)
       && C.Uniquely(claims, JournalOwner(record.number), runs)
       && ClearOfMetadata(runs, metadata) && AllMarked(runs, bitmap)
  }

  /** The census settles the ownership part of acceptance. */
  lemma CensusSettles(record: FileRecord, records: seq<FileRecord>, place: nat, runs: seq<Run>, total: nat)
    requires AllWellFormed(records) && Holds(records, record, place) && OneData(record) && WellFormed(record)
    requires Inside(DataAttributes(record.attributes)[0], |record.fixed|)
    requires AttributeRuns(record.fixed, DataAttributes(record.attributes)[0]) == Ok(runs) && Mapped(runs)
    ensures forall i :: 0 <= i < |runs| ==> runs[i].length > 0
    ensures C.CensusAccepts(Scan(records), JournalOwner(record.number), runs, total) <==>
            && C.Claims(Scan(records)).Ok?
            && (forall i :: 0 <= i < |C.Claims(Scan(records)).value| ==>
                C.Claims(Scan(records)).value[i].lcn + C.Claims(Scan(records)).value[i].length <= total)
            && C.Uniquely(C.Claims(Scan(records)).value, JournalOwner(record.number), runs)
  {
    hide AttributeRuns, Scan, C.Claims, C.CensusAccepts, C.Uniquely, DataAttributes, C.Own;
    RunsContiguous(record.fixed, DataAttributes(record.attributes)[0]);
    forall i | 0 <= i < |runs| ensures runs[i].length > 0 { ContiguousPositive(runs, 0, i); }
    if C.Claims(Scan(records)).Ok? {
      JournalAmongClaims(records, record, place);
      ClaimsPositive(records);
    }
    C.CensusIsUniqueOwnership(Scan(records), JournalOwner(record.number), runs, total);
  }

  /** The allocation part of validate_journal, from the located record to the bitmap. */
  method ValidateJournal(record: FileRecord, records: seq<FileRecord>, ghost place: nat, metadata: seq<seq<Run>>,
                         bitmap: Bytes, total: nat, expectedSize: nat, requireOneRun: bool)
    returns (r: Result<seq<Run>>)
    requires AllWellFormed(records) && WellFormed(record) && Holds(records, record, place)
    ensures r.Ok? <==> Accepted(record, records, metadata, bitmap, total, expectedSize, requireOneRun)
    ensures r.Ok? ==> r == AttributeRuns(record.fixed, DataAttributes(record.attributes)[0])
    ensures r.Ok? ==>
              AllocationProved(r.value, C.Claims(Scan(records)).value, JournalOwner(record.number), bitmap, total,
                  expectedSize)
  {
    hide AllocationProved, AttributeRuns, Scan, C.Claims, C.CensusAccepts, C.Uniquely, AllMarked, InVolume,
         SumLengths, Overlap, DataAttributes, StreamSizes, Span, ClearOfMetadata;
    var fixed := record.fixed;
    if U16(fixed, 22) / 2 % 2 == 1 || U64(fixed, 32) != 0 || U16(fixed, 18) != 1 { return Err; }
    if exists i :: 0 <= i < |record.attributes| && record.attributes[i].typeCode == AT_ATTRIBUTE_LIST { return Err; }
    var dataAttributes := DataAttributes(record.attributes);
    if |dataAttributes| != 1 || dataAttributes[0].nameLength > 0 { return Err; }
    var data := dataAttributes[0];
    assert data in record.attributes;
    if !data.nonresident || data.flags != 0 { return Err; }
    var sizes := StreamSizes(fixed, data);
    if sizes.Err? || sizes.value != Sizes(expectedSize, expectedSize, expectedSize) { return Err; }
    if expectedSize % CLUSTER != 0 { return Err; }
    var decoded := AttributeRuns(fixed, data);
    if decoded.Err? || !InVolume(decoded.value, total) { return Err; }
    var runs := decoded.value;
    if !Mapped(runs) { return Err; }
    if Span(SumLengths(runs), CLUSTER) != expectedSize { return Err; }
    if requireOneRun && |runs| != 1 { return Err; }
    CensusSettles(record, records, place, runs, total);
    var owned := C.ValidateJournalOwnership(Scan(records), JournalOwner(record.number), runs, total);
    if !owned { return Err; }
    if !ClearOfMetadata(runs, metadata) { return Err; }
    var marked := CheckMarks(runs, bitmap);
    if !marked { return Err; }
    AcceptedAllocation(records, record, place, runs, bitmap, total, expectedSize);
    r := Ok(runs);
  }

  /** The loop over every cluster of every run. */
  method CheckMarks(runs: seq<Run>, bitmap: Bytes) returns (marked: bool)
    requires Mapped(runs)
    ensures marked <==> AllMarked(runs, bitmap)
  {
    hide Bitmap.IsSet;
    for i := 0 to |runs|
      invariant forall k, c :: 0 <= k < i && runs[k].lcn.value <= c < runs[k].lcn.value + runs[k].length ==>
          Bitmap.IsSet(bitmap, c)
    {
      var lcn := runs[i].lcn.value;
      for cluster := lcn to lcn + runs[i].length
        invariant forall c :: lcn <= c < cluster ==> Bitmap.IsSet(bitmap, c)
      {
        if !Bitmap.IsSet(bitmap, cluster) { return false; }
      }
    }
    marked := true;
  }
}
