/** The builder's rewrite of the three cached copies of the journal's flags. */
module FlagRewrite {
  import opened Bytes
  import opened Arithmetic
  import opened Runlist
  import opened Streams
  import opened FileRecords
  import opened FlagCopies
  import opened RecordStore
  import MS = MultiSector

  datatype Copy = Standard | FileName | Index

  datatype Flags = Flags(standard: nat, fileName: nat, index: nat)

  /** The reference of a record: its sequence number and its number. */
  function Reference(logical: Bytes, number: nat): nat
    requires |logical| >= 48
  {
    U16(logical, 16) * 0x1_0000_0000_0000 + number
  }

  // ---------- the edit of one record ----------

  /** A logical record with its fixup array between the header and the attributes,
      clear of every trailer. */
  ghost predicate Tidy(logical: Bytes) {
    && |logical| >= 512 && MS.Protectable(logical, SECTOR, FILE)
    && 40 <= U16(logical, 4) && ArrayEnd(logical) <= First(logical)
  }

  function ArrayEnd(logical: Bytes): nat
    requires |logical| >= 8
  {
    U16(logical, 4) + 2 * U16(logical, 6)
  }

  /** An edit past the first attribute keeps a record tidy. */
  lemma EditKeepsTidy(a: Bytes, b: Bytes, m: nat)
    requires Tidy(a) && Differ(a, b, m, m + 4) && First(a) <= m
    ensures Tidy(b) && First(b) == First(a) && U16(b, 4) == U16(a, 4) && U16(b, 6) == U16(a, 6)
        && U16(b, 16) == U16(a, 16)
  {
    hide MS.ArrayFree;
    assert b[..4] == a[..4];
  }

  /** The flags of the fields that were chosen are the new ones, the rest the old. */
  function Chosen(copies: set<Copy>, c: Copy, desired: nat, before: nat): nat {
    if c in copies then desired else before
  }

  /** A record differs from its earlier self only in its array and in the given fields. */
  predicate OnlyFields(a: Bytes, b: Bytes, p: nat, q: nat, useP: bool, useQ: bool)
    requires |a| >= 8
  {
    && |a| == |b|
    && forall j :: 0 <= j < |a| && !MS.InArray(a, j) && !(useP && p <= j < p + 4) && !(useQ && q <= j < q + 4) ==>
       b[j] == a[j]
  }

  /** The journal record after the chosen edits of its two fields, before encoding. */
  function EditFields(logical: Bytes, f: Fields, copies: set<Copy>, desired: nat): (r: Bytes)
    requires f.standard + 4 <= |logical| && f.fileName + 4 <= |logical|
    ensures |r| == |logical|
  {
    var one := if Standard in copies then Put(logical, f.standard, ToLe(desired, 4)) else logical;
    if FileName in copies then Put(one, f.fileName, ToLe(desired, 4)) else one
  }

  /** What the edit does to the journal record, seen by a fresh search. */
  lemma EditedFields(logical: Bytes, copies: set<Copy>, desired: nat)
    requires Tidy(logical) && StandardHoldsFlags(logical) && desired < 0x1_0000_0000
    ensures var f := FlagOffsets(logical).value;
            var e := EditFields(logical, f, copies, desired);
            && Tidy(e) && StandardHoldsFlags(e) && FlagOffsets(e) == Ok(f) && First(e) == First(logical)
            && U16(e, 4) == U16(logical, 4) && U16(e, 6) == U16(logical, 6) && U16(e, 16) == U16(logical, 16)
            && U32(e, f.standard) == Chosen(copies, Standard, desired, U32(logical, f.standard))
            && U32(e, f.fileName) == Chosen(copies, FileName, desired, U32(logical, f.fileName))
            && OnlyFields(logical, e, f.standard, f.fileName, Standard in copies, FileName in copies)
  {
    hide FlagOffsets, Attributes, MS.Protectable, U32, First, ToLe;
    var f := FlagOffsets(logical).value;
    FieldsAboveFirst(logical);
    FieldsAreApart(logical);
    var one := if Standard in copies then Put(logical, f.standard, ToLe(desired, 4)) else logical;
    if Standard in copies {
      PutU32(logical, f.standard, desired);
      FlagOffsetsSurvive(logical, one, f.standard);
      EditKeepsTidy(logical, one, f.standard);
      SameU32(logical, one, f.fileName);
    }
    if FileName in copies {
      var e := Put(one, f.fileName, ToLe(desired, 4));
      PutU32(one, f.fileName, desired);
      FlagOffsetsSurvive(one, e, f.fileName);
      EditKeepsTidy(one, e, f.fileName);
      SameU32(one, e, f.standard);
    }
  }

  lemma FieldsAboveFirst(logical: Bytes)
    requires Tidy(logical) && StandardHoldsFlags(logical)
    ensures First(logical) <= FlagOffsets(logical).value.standard
        && First(logical) <= FlagOffsets(logical).value.fileName
  {
    hide FlagOffsets, StandardHoldsFlags, First, MS.Protectable;
    NoiseKeepsFields(logical, logical, First(logical), First(logical));
  }

  /** What the edit does to $Extend's record, seen by a fresh search. */
  lemma EditedKey(logical: Bytes, child: nat, desired: nat)
    requires Tidy(logical) && RootHoldsKey(logical, child) && desired < 0x1_0000_0000
    ensures var m := IndexFlagOffset(logical, child).value;
            var e := Put(logical, m, ToLe(desired, 4));
            && Tidy(e) && RootHoldsKey(e, child) && IndexFlagOffset(e, child) == Ok(m) && First(e) == First(logical)
            && U16(e, 4) == U16(logical, 4) && U16(e, 6) == U16(logical, 6)
            && U32(e, m) == desired && OnlyFields(logical, e, m, m, true, true)
  {
    hide IndexFlagOffset, IndexRoot, MS.Protectable, U32, First, ToLe;
    var m := IndexFlagOffset(logical, child).value;
    var e := Put(logical, m, ToLe(desired, 4));
    NoiseKeepsKey(logical, logical, child, First(logical), First(logical));
    PutU32(logical, m, desired);
    IndexOffsetSurvives(logical, e, child, m);
    EditKeepsTidy(logical, e, m);
  }

  // ---------- through the device ----------

  /** The record read back after a write of `edited`: the same, up to the array. */
  lemma ReadBack(g: Geometry, image: Bytes, result: Bytes, number: nat, edited: Bytes)
    requires Sound(g, |image|) && |edited| == g.recordSize && Tidy(edited)
    requires Span(number + 1, g.recordSize) <= g.mftDataSize
    requires RecordWritten(g, image, result, number, MS.EncodeArray(edited, SECTOR))
    ensures ReadRecord(g, result, number).Ok?
    ensures SameButArray(edited, ReadRecord(g, result, number).value, U16(edited, 4), ArrayEnd(edited))
  {
    hide ReadRecord, RecordWritten, MS.Protectable;
    WrittenReadsBack(g, image, result, number, edited);
  }

  /** The hypotheses of the main theorem: a sound, injective $MFT, and two distinct
      tidy records that hold the three copies where a search can find them again. */
  ghost predicate Ready(g: Geometry, image: Bytes, number: nat) {
    && Sound(g, |image|) && Injective(g.mftRuns, CLUSTER) && number != EXTEND_RECORD
    && RecordMapped(g, number) && RecordMapped(g, EXTEND_RECORD)
    && ReadRecord(g, image, number).Ok? && ReadRecord(g, image, EXTEND_RECORD).Ok?
    && var j, x := ReadRecord(g, image, number).value, ReadRecord(g, image, EXTEND_RECORD).value;
       && Tidy(j) && StandardHoldsFlags(j)
       && Tidy(x) && RootHoldsKey(x, Reference(j, number))
  }

  /** The three copies as a search finds them. */
  function FlagsOf(g: Geometry, image: Bytes, number: nat): (r: Result<Flags>) {
    match ReadRecord(g, image, number)
    case Err => Err
    case Ok(j) =>
      if |j| < 48 then Err
      else
        match FlagOffsets(j)
        case Err => Err
        case Ok(f) =>
          match ReadRecord(g, image, EXTEND_RECORD)
          case Err => Err
          case Ok(x) =>
            if |x| < 48 then Err
            else
              match IndexFlagOffset(x, Reference(j, number))
              case Err => Err
              case Ok(m) => Ok(Flags(U32(j, f.standard), U32(j, f.fileName), U32(x, m)))
  }

  /** The device after the chosen copies are rewritten. */
  ghost predicate Rewritten(g: Geometry, image: Bytes, result: Bytes, number: nat, copies: set<Copy>, desired: nat)
    requires Ready(g, image, number)
  {
    var j, x := ReadRecord(g, image, number).value, ReadRecord(g, image, EXTEND_RECORD).value;
    var f, m := FlagOffsets(j).value, IndexFlagOffset(x, Reference(j, number)).value;
    && |result| == |image|
    // a fresh decode reads the new flags in the chosen copies, the old in the rest
    && FlagsOf(g, result, number) == Ok(Flags(Chosen(copies, Standard, desired, U32(j, f.standard)),
                                              Chosen(copies, FileName, desired, U32(j, f.fileName)),
                                              Chosen(copies, Index, desired, U32(x, m))))
    // outside the fixup arrays, only the chosen fields of the two records changed
    && ReadRecord(g, result, number).Ok? && ReadRecord(g, result, EXTEND_RECORD).Ok?
    && OnlyFields(j, ReadRecord(g, result, number).value, f.standard, f.fileName,
                  Standard in copies, FileName in copies)
    && OnlyFields(x, ReadRecord(g, result, EXTEND_RECORD).value, m, m, Index in copies, Index in copies)
    // every other record and every device byte outside the two is as it was
    && (forall k :: 0 <= k && k != number && k != EXTEND_RECORD ==> ReadRecord(g, result, k) == ReadRecord(g, image, k))
    && (forall y :: 0 <= y < |image| && !RecordTouches(g, number, y) && !RecordTouches(g, EXTEND_RECORD, y) ==>
        result[y] == image[y])
  }

  /** The device between the two record writes. */
  ghost predicate FirstWrite(g: Geometry, image: Bytes, middle: Bytes, number: nat, copies: set<Copy>, desired: nat)
    requires Ready(g, image, number)
  {
    var j := ReadRecord(g, image, number).value;
    if Standard in copies || FileName in copies then
      RecordWritten(g, image, middle, number, EncodedEdit(j, copies, desired))
    else middle == image
  }

  ghost function EncodedEdit(j: Bytes, copies: set<Copy>, desired: nat): Bytes
    requires |j| >= 512 && FlagOffsets(j).Ok?
  {
    var e := EditFields(j, FlagOffsets(j).value, copies, desired);
    if MS.ArrayOk(e, SECTOR) then MS.EncodeArray(e, SECTOR) else []
  }

  ghost function EncodedKey(x: Bytes, child: nat, desired: nat): Bytes
    requires |x| >= 512 && IndexFlagOffset(x, child).Ok?
  {
    var e := Put(x, IndexFlagOffset(x, child).value, ToLe(desired, 4));
    if MS.ArrayOk(e, SECTOR) then MS.EncodeArray(e, SECTOR) else []
  }

  ghost predicate SecondWrite(g: Geometry, image: Bytes, middle: Bytes, result: Bytes, number: nat, copies: set<Copy>,
      desired: nat)
    requires Ready(g, image, number)
  {
    var j, x := ReadRecord(g, image, number).value, ReadRecord(g, image, EXTEND_RECORD).value;
    if Index in copies then
      RecordWritten(g, middle, result, EXTEND_RECORD, EncodedKey(x, Reference(j, number), desired))
    else result == middle
  }

  /** The journal record after the first write. */
  lemma JournalAfter(g: Geometry, image: Bytes, middle: Bytes, number: nat, copies: set<Copy>, desired: nat)
    requires Ready(g, image, number) && desired < 0x1_0000_0000
    requires FirstWrite(g, image, middle, number, copies, desired)
    ensures var j, r := ReadRecord(g, image, number).value, ReadRecord(g, middle, number);
            var f := FlagOffsets(j).value;
            && r.Ok? && FlagOffsets(r.value) == Ok(f)
            && U16(r.value, 16) == U16(j, 16)
            && U32(r.value, f.standard) == Chosen(copies, Standard, desired, U32(j, f.standard))
            && U32(r.value, f.fileName) == Chosen(copies, FileName, desired, U32(j, f.fileName))
            && OnlyFields(j, r.value, f.standard, f.fileName, Standard in copies, FileName in copies)
  {
    hide ReadRecord, RecordWritten, FlagOffsets, Attributes, MS.Protectable, MS.EncodeArray, U32, First, ToLe, Sound,
         Injective, IndexFlagOffset, RootHoldsKey, Touches;
    var j := ReadRecord(g, image, number).value;
    if Standard in copies || FileName in copies {
      var f := FlagOffsets(j).value;
      var e := EditFields(j, f, copies, desired);
      EditedFields(j, copies, desired);
      TidyEncodes(e);
      RecordInMft(g, image, number);
      ReadBack(g, image, middle, number, e);
      var r := ReadRecord(g, middle, number).value;
      NoiseKeepsFields(e, r, U16(e, 4), ArrayEnd(e));
    }
  }

  lemma TidyEncodes(e: Bytes)
    requires Tidy(e)
    ensures MS.ArrayOk(e, SECTOR)
  {
  }

  lemma RecordInMft(g: Geometry, image: Bytes, number: nat)
    requires ReadRecord(g, image, number).Ok?
    ensures Span(number + 1, g.recordSize) <= g.mftDataSize && |ReadRecord(g, image, number).value| == g.recordSize
  {
  }

  /** $Extend's record after the second write. */
  lemma ExtendAfter(g: Geometry, image: Bytes, middle: Bytes, result: Bytes, number: nat, copies: set<Copy>,
      desired: nat)
    requires Ready(g, image, number) && desired < 0x1_0000_0000 && |middle| == |image|
    requires ReadRecord(g, middle, EXTEND_RECORD) == ReadRecord(g, image, EXTEND_RECORD)
    requires SecondWrite(g, image, middle, result, number, copies, desired)
    ensures var j, x, r := ReadRecord(g, image, number).value, ReadRecord(g, image, EXTEND_RECORD).value,
        ReadRecord(g, result, EXTEND_RECORD);
            var m := IndexFlagOffset(x, Reference(j, number)).value;
            && r.Ok? && IndexFlagOffset(r.value, Reference(j, number)) == Ok(m)
            && U32(r.value, m) == Chosen(copies, Index, desired, U32(x, m))
            && OnlyFields(x, r.value, m, m, Index in copies, Index in copies)
  {
    hide ReadRecord, RecordWritten, FlagOffsets, StandardHoldsFlags, MS.Protectable, MS.EncodeArray, U32, First, ToLe,
         Injective, IndexFlagOffset, IndexRoot, Touches, Span, Contiguous, InVolume;
    var j, x := ReadRecord(g, image, number).value, ReadRecord(g, image, EXTEND_RECORD).value;
    if Index in copies {
      var child := Reference(j, number);
      var e := Put(x, IndexFlagOffset(x, child).value, ToLe(desired, 4));
      EditedKey(x, child, desired);
      TidyEncodes(e);
      RecordInMft(g, image, EXTEND_RECORD);
      ReadBack(g, middle, result, EXTEND_RECORD, e);
      NoiseKeepsKey(e, ReadRecord(g, result, EXTEND_RECORD).value, child, U16(e, 4), ArrayEnd(e));
    }
  }

  /** Whatever copies are chosen, the two writes leave the device rewritten. */
  lemma RewriteMeaning(g: Geometry, image: Bytes, middle: Bytes, result: Bytes, number: nat, copies: set<Copy>,
      desired: nat)
    requires Ready(g, image, number) && desired < 0x1_0000_0000
    requires FirstWrite(g, image, middle, number, copies, desired)
    requires SecondWrite(g, image, middle, result, number, copies, desired)
    ensures Rewritten(g, image, result, number, copies, desired)
  {
    hide ReadRecord, FlagOffsets, U32, Injective, IndexFlagOffset, MS.Protectable, First, ValueStart, Attributes,
         IndexRoot, Touches, OnlyFields, EncodedEdit, EncodedKey, Locate;
    var j := ReadRecord(g, image, number).value;
    forall k: nat | k != number
      ensures ReadRecord(g, middle, k) == ReadRecord(g, image, k)
    {
      if Standard in copies || FileName in copies {
        OtherRecordsKept(g, image, middle, number, EncodedEdit(j, copies, desired), k);
      }
    }
    forall k: nat | k != EXTEND_RECORD
      ensures ReadRecord(g, result, k) == ReadRecord(g, middle, k)
    {
      if Index in copies {
        var x := ReadRecord(g, image, EXTEND_RECORD).value;
        OtherRecordsKept(g, middle, result, EXTEND_RECORD, EncodedKey(x, Reference(j, number), desired), k);
      }
    }
    JournalAfter(g, image, middle, number, copies, desired);
    ExtendAfter(g, image, middle, result, number, copies, desired);
  }

  // ---------- the volume ----------

  /** An open volume: the device bytes and what its constructor has checked. */
  class NtfsVolume {
    var image: Bytes
    const geometry: Geometry

    ghost predicate Valid()
      reads this
    {
      Sound(geometry, |image|)
    }

    constructor (geometry: Geometry, image: Bytes)
      requires Sound(geometry, |image|)
      ensures Valid() && this.geometry == geometry && this.image == image
    {
      this.geometry := geometry;
      this.image := image;
    }

    /** write_stream_exact through a validated run list: nothing is written unless every
        byte asked for is mapped. */
    method WriteStreamExact(runs: seq<Run>, offset: nat, payload: Bytes) returns (ok: bool)
      requires Valid() && Contiguous(runs, 0) && InVolume(runs, geometry.totalClusters)
      modifies this`image
      ensures Valid() && |image| == old(|image|)
      ensures ok <==> |payload| > 0 && AllMapped(runs, CLUSTER, offset, offset + |payload|)
      ensures !ok ==> image == old(image)
      ensures ok && Injective(runs, CLUSTER) ==>
                Written(old(image), image, runs, CLUSTER, offset, payload)
    {
      hide RangesFrom, Written, Injective, AllMapped, Put;
      var ranges := StreamPhysicalRanges(runs, CLUSTER, offset, |payload|);
      if |payload| > 0 { RangesAccept(runs, 0, CLUSTER, offset, offset + |payload|); }
      if ranges.Err? { return false; }
      RangesMeaning(runs, 0, CLUSTER, offset, offset + |payload|);
      RangesOnDevice(geometry, runs, |image|, ranges.value, offset, offset + |payload|);
      WriteAll(ranges.value, offset, payload);
      if Injective(runs, CLUSTER) {
        WriteMeaning(old(image), ranges.value, runs, CLUSTER, offset, payload);
      }
      ok := true;
    }

    /** The loop of write_stream_exact: one seek and one write per range. */
    method WriteAll(ranges: seq<Range>, offset: nat, payload: Bytes)
      requires OnDevice(ranges, |image|) && Tiles(ranges, offset, offset + |payload|)
      modifies this`image
      ensures image == WriteRanges(old(image), ranges, payload, offset)
    {
      hide Put;
      var consumed: nat := 0;
      assert ranges[0..] == ranges && payload[0..] == payload;
      for i := 0 to |ranges|
        invariant consumed <= |payload| && |image| == old(|image|)
        invariant Tiles(ranges[i..], offset + consumed, offset + |payload|)
        invariant WriteRanges(old(image), ranges, payload, offset)
            == WriteRanges(image, ranges[i..], payload[consumed..], offset + consumed)
      {
        var amount := ranges[i].bytes;
        TilesForward(ranges[i..], offset + consumed, offset + |payload|);
        assert ranges[i..][1..] == ranges[i + 1..];
        assert payload[consumed..][..amount] == payload[consumed..consumed + amount];
        assert payload[consumed..][amount..] == payload[consumed + amount..];
        image := Put(image, ranges[i].device, payload[consumed..consumed + amount]);
        consumed := consumed + amount;
      }
    }

    /** write_file_record_logical: protect the record, then write it. */
    method WriteFileRecordLogical(number: nat, logical: Bytes) returns (ok: bool)
      requires Valid()
      modifies this`image
      ensures Valid() && |image| == old(|image|)
      ensures ok <==>
              && |logical| == geometry.recordSize && MS.HeaderOk(logical, SECTOR, FILE)
              && RecordMapped(geometry, number)
      ensures !ok ==> image == old(image)
      ensures ok && Injective(geometry.mftRuns, CLUSTER) ==>
                RecordWritten(geometry, old(image), image, number, MS.EncodeArray(logical, SECTOR))
    {
      hide AllMapped, Injective, Written, MS.EncodeArray, MS.ArrayOk;
      if |logical| != geometry.recordSize { return false; }
      var protected := MS.EncodeMst(logical, SECTOR, FILE);
      if protected.Err? { return false; }
      ok := WriteStreamExact(geometry.mftRuns, Span(number, geometry.recordSize), protected.value);
    }

    /** rewrite_journal_flag_copies, from an already located journal record. */
    method RewriteJournalFlagCopies(number: nat, expected: Flags, desired: int, copies: set<Copy>)
      returns (r: Result<Flags>)
      requires Valid()
      modifies this`image
      ensures Valid() && |image| == old(|image|)
      ensures r.Ok? ==>
              && FlagsOf(geometry, old(image), number) == r == Ok(expected)
              && copies != {} && 0 <= desired < 0x1_0000_0000
      ensures Ready(geometry, old(image), number) ==>
                (r.Ok? <==>
                 && FlagsOf(geometry, old(image), number) == Ok(expected)
                 && copies != {} && 0 <= desired < 0x1_0000_0000)
      ensures Ready(geometry, old(image), number) && r.Ok? ==>
                Rewritten(geometry, old(image), image, number, copies, desired)
      ensures Ready(geometry, old(image), number) && r.Err? ==> image == old(image)
    {
      hide ReadRecord, FlagOffsets, IndexFlagOffset, U32, Injective, MS.Protectable, MS.HeaderOk, MS.EncodeArray,
           Written, AllMapped, First, Attributes, IndexRoot, ValueStart, Rewritten, Put, ToLe;
      if copies == {} { return Err; }
      var j := ReadRecord(geometry, image, number);
      if j.Err? || |j.value| < 48 { return Err; }
      var fields := FlagOffsets(j.value);
      if fields.Err? { return Err; }
      var x := ReadRecord(geometry, image, EXTEND_RECORD);
      if x.Err? || |x.value| < 48 { return Err; }
      var key := IndexFlagOffset(x.value, Reference(j.value, number));
      if key.Err? { return Err; }
      var logical, f, extend, m := j.value, fields.value, x.value, key.value;
      var current := Flags(U32(logical, f.standard), U32(logical, f.fileName), U32(extend, m));
      if current != expected { return Err; }
      if !(0 <= desired <= 0xFFFF_FFFF) { return Err; }
      if Standard in copies { logical := Put(logical, f.standard, ToLe(desired, 4)); }
      if FileName in copies { logical := Put(logical, f.fileName, ToLe(desired, 4)); }
      if Index in copies { extend := Put(extend, m, ToLe(desired, 4)); }
      assert logical == EditFields(j.value, f, copies, desired);
      ghost var ready := Ready(geometry, image, number);
      if ready {
        EditedFields(j.value, copies, desired);
        EditedKey(x.value, Reference(j.value, number), desired);
        TidyHeader(logical);
        TidyHeader(Put(x.value, m, ToLe(desired, 4)));
      }
      if Standard in copies || FileName in copies {
        var written := WriteFileRecordLogical(number, logical);
        if !written { return Err; }
      }
      ghost var middle := image;
      assert ready ==> FirstWrite(geometry, old(image), middle, number, copies, desired);
      if Index in copies {
        var written := WriteFileRecordLogical(EXTEND_RECORD, extend);
        if !written { return Err; }
      }
      if ready {
        RewriteMeaning(geometry, old(image), middle, image, number, copies, desired);
      }
      r := Ok(current);
    }
  }

  lemma TidyHeader(e: Bytes)
    requires Tidy(e)
    ensures MS.HeaderOk(e, SECTOR, FILE) && MS.ArrayOk(e, SECTOR)
  {
  }
}
