/** corrupt_unflagged_sparse_run on an image: the last run of a mapped multi-run DATA
    attribute becomes a hole, by dropping its LCN bytes in place. */
module SparseRun {
  import opened Bytes
  import opened Arithmetic
  import opened Runlist
  import opened MappingEdit
  import opened FixtureRecords
  import opened FixtureImage
  import opened Volumes
  import opened Fragmentation
  import opened VolumeKept
  import opened MoveCompletes
  import opened FragmentOutcome
  import PairReplacement
  import MS = MultiSector
  import FR = FileRecords
  import RecordStore

  // ---------- the record ----------

  /** A mapped, unflagged attribute of at least two runs, none of them a hole. */
  predicate Sparsable(x: Attr) {
    x.body.nonresident && x.body.flags == 0 && |x.body.runs| >= 2 && Mapped(x.body.runs)
  }

  /** The attribute with its last run made a hole. */
  function Sparse(x: Attr): Attr
    requires |x.body.runs| > 0
  {
    x.(body := x.body.(runs := DropLastLcn(x.body.runs)))
  }

  /** The record changed in the attribute's mapping region alone, which lost its last LCN. */
  predicate LastLcnDropped(record: Bytes, edited: Bytes, x: Attr)
    requires End(x) <= |record| && Pairs(x) < End(x) && |x.body.runs| > 0
  {
    && |edited| == |record|
    && (forall j :: 0 <= j < |record| && !(Pairs(x) <= j < End(x)) ==> edited[j] == record[j])
    && Runs(edited[Pairs(x)..End(x)], x.body.lowestVcn, false) == Ok(DropLastLcn(x.body.runs))
  }

  /** The search stops at an attribute read from the record. */
  lemma {:induction false} FoundAt(record: Bytes, o: nat)
    requires FindFrom(record, o, FR.AT_DATA, []).Ok?
    ensures var x := FindFrom(record, o, FR.AT_DATA, []).value;
            && o <= x.offset && AttrAt(record, x.offset) == Ok(x) && Is(x, FR.AT_DATA, []) && SoundBody(x)
            && x.offset + 24 <= End(x) <= |record| && U32(record, x.offset) != FR.AT_END
    decreases |record| - o
  {
    hide AttrAt, U32, SoundBody;
    FindTurn(record, o, FR.AT_DATA, []);
    var a := AttrAt(record, o).value;
    if !Is(a, FR.AT_DATA, []) { FoundAt(record, o + a.length); }
  }

  /** An edit from the found attribute on, which keeps it a match, is what the search then finds. */
  lemma {:induction false} FindEdited(a: Bytes, b: Bytes, o: nat, e: Attr)
    requires FindFrom(a, o, FR.AT_DATA, []).Ok? && Is(e, FR.AT_DATA, [])
    requires var x := FindFrom(a, o, FR.AT_DATA, []).value;
             && Agree(a, b, o, x.offset) && x.offset + 4 <= |b| && U32(b, x.offset) != FR.AT_END
             && AttrAt(b, x.offset) == Ok(e)
    ensures FindFrom(b, o, FR.AT_DATA, []) == Ok(e)
    decreases |a| - o
  {
    hide AttrAt, U32, SoundBody;
    FindTurn(a, o, FR.AT_DATA, []);
    FindTurn(b, o, FR.AT_DATA, []);
    var h := AttrAt(a, o).value;
    if !Is(h, FR.AT_DATA, []) {
      FoundAt(a, o + h.length);
      SameU32(a, b, o);
      PairReplacement.SameAttr(a, b, o);
      FindEdited(a, b, o + h.length, e);
    }
  }

  /** The edited attribute reads as the old one with the last run a hole. */
  lemma SparseAttr(record: Bytes, edited: Bytes, x: Attr)
    requires AttrAt(record, x.offset) == Ok(x) && Is(x, FR.AT_DATA, []) && Sparsable(x) && SoundBody(x)
    requires x.offset + 24 <= End(x) <= |record| && LastLcnDropped(record, edited, x)
    ensures AttrAt(edited, x.offset) == Ok(Sparse(x)) && U32(edited, x.offset) == U32(record, x.offset)
  {
    hide BodyOf, U32, DecodePairs, DropLastLcn;
    var s, r, m := record[x.offset..End(x)], edited[x.offset..End(x)], x.body.mapping;
    PairReplacement.LengthField(record, x);
    assert r[m..] == edited[Pairs(x)..End(x)];
    PairReplacement.BodyEdited(s, r, DropLastLcn(x.body.runs));
    SameU32(record, edited, x.offset);
    SameU32(record, edited, x.offset + 4);
  }

  /** The edit always passes the re-read comparison. */
  lemma SparseFound(record: Bytes, edited: Bytes)
    requires |record| >= 28 && DataOf(record).Ok? && Sparsable(DataOf(record).value)
    requires LastLcnDropped(record, edited, DataOf(record).value)
    ensures DataOf(edited) == Ok(Sparse(DataOf(record).value)) && First(edited) == First(record)
  {
    hide AttrAt, FindFrom, U32, Runs;
    var x := DataOf(record).value;
    FoundAt(record, First(record));
    assert First(edited) == First(record);
    SparseAttr(record, edited, x);
    FindEdited(record, edited, First(record), Sparse(x));
  }

  lemma StillProtectable(g: Geometry, image: Bytes, inode: nat, edited: Bytes)
    requires Sane(g) && Record(g, image, inode).Ok? && |edited| == g.recordSize
    requires forall j :: 0 <= j < 8 ==> edited[j] == Record(g, image, inode).value[j]
    ensures Stored(g, image, inode, edited).Ok?
  {
    hide RecordOffset, MS.Decode;
    var record := Record(g, image, inode).value;
    var raw := Slice(image, RecordOffset(g, image, inode).value, g.recordSize).value;
    MS.HeaderSurvives(raw, record, g.sectorSize, RecordStore.FILE);
  }

  // ---------- the operation ----------

  /** The record's DATA attribute is one the operation accepts. */
  predicate Accepts(g: Geometry, image: Bytes, inode: nat)
    requires Sane(g)
  {
    var record := Record(g, image, inode);
    record.Ok? && DataOf(record.value).Ok? && Sparsable(DataOf(record.value).value)
  }

  /** The image afterwards: the record written with the last LCN of its DATA dropped. */
  ghost predicate SparseStored(g: Geometry, image: Bytes, inode: nat, edited: Bytes, result: Bytes)
    requires Sane(g)
  {
    && Accepts(g, image, inode) && Stored(g, image, inode, edited) == Ok(result)
    && LastLcnDropped(Record(g, image, inode).value, edited, DataOf(Record(g, image, inode).value).value)
  }

  /** Succeeds exactly on such an attribute, whatever its pairs look like, and then the record
      is stored with only the last LCN gone; otherwise nothing is written. */
  method CorruptUnflaggedSparseRun(volume: FixtureVolume, inode: nat) returns (ok: bool, ghost edited: Bytes)
    requires Sane(volume.g)
    modifies volume
    ensures ok <==>
              var record := Record(volume.g, old(volume.image), inode);
              && record.Ok? && DataOf(record.value).Ok?
              && var b := DataOf(record.value).value.body;
                 b.nonresident && b.flags == 0 && 2 <= |b.runs| && forall i :: 0 <= i < |b.runs| ==> b.runs[i].lcn.Some?
    ensures !ok ==> volume.image == old(volume.image)
    ensures ok ==> SparseStored(volume.g, old(volume.image), inode, edited, volume.image)
  {
    hide Record, FindFrom, Stored, Runs, DropLastLcn;
    edited := [];
    var record := ReadRecord(volume.g, volume.image, inode);
    if record.Err? { return false, []; }
    var data := FindData(record.value);
    if data.Err? || !data.value.body.nonresident || data.value.body.flags != 0 { return false, []; }
    var x := data.value;
    if |x.body.runs| < 2 || !Mapped(x.body.runs) { return false, []; }
    FoundPairs(record.value);
    var changed := DropLastRun(record.value, Pairs(x), End(x), x.body.lowestVcn);
    edited := changed.value;
    DroppedElsewhere(record.value, edited, x);
    SparseFound(record.value, edited);
    var mutated := FindData(changed.value);
    if mutated != Ok(Sparse(x)) { return false, []; }
    StillProtectable(volume.g, volume.image, inode, edited);
    ok := volume.WriteRecord(inode, changed.value);
  }

  /** The attribute's region holds its pairs. */
  lemma FoundPairs(record: Bytes)
    requires |record| >= 28 && DataOf(record).Ok? && DataOf(record).value.body.nonresident
    ensures var x := DataOf(record).value;
            && Pairs(x) < End(x) <= |record|
            && Runs(record[Pairs(x)..End(x)], x.body.lowestVcn, false) == Ok(x.body.runs)
  {
    hide AttrAt, FindFrom, U32, Runs;
    var x := DataOf(record).value;
    FoundAt(record, First(record));
    AttrPairs(record, x);
  }

  lemma AttrPairs(record: Bytes, x: Attr)
    requires AttrAt(record, x.offset) == Ok(x) && x.body.nonresident && SoundBody(x)
    ensures Pairs(x) < End(x) <= |record|
    ensures Runs(record[Pairs(x)..End(x)], x.body.lowestVcn, false) == Ok(x.body.runs)
  {
    hide U32, U16, U64, Runs;
    assert record[x.offset..End(x)][x.body.mapping..] == record[Pairs(x)..End(x)];
  }

  /** Slices ahead of and behind the region, byte by byte. */
  lemma DroppedElsewhere(record: Bytes, edited: Bytes, x: Attr)
    requires |edited| == |record| && Pairs(x) < End(x) <= |record| && |x.body.runs| > 0
    requires edited[..Pairs(x)] == record[..Pairs(x)] && edited[End(x)..] == record[End(x)..]
    requires Runs(edited[Pairs(x)..End(x)], x.body.lowestVcn, false) == Ok(DropLastLcn(x.body.runs))
    ensures LastLcnDropped(record, edited, x)
  {
    hide Runs, DropLastLcn;
    forall j | 0 <= j < |record| && !(Pairs(x) <= j < End(x)) ensures edited[j] == record[j] {
      if j < Pairs(x) {
        assert edited[..Pairs(x)][j] == record[..Pairs(x)][j];
      } else {
        assert edited[End(x)..][j - End(x)] == record[End(x)..][j - End(x)];
      }
    }
  }

  // ---------- the volume afterwards ----------

  lemma SparseChain(record: Bytes, edited: Bytes, t: nat)
    requires 28 <= |record| && Chain(record, First(record)).Ok? && t < |Chain(record, First(record)).value|
    requires var x := Chain(record, First(record)).value[t];
             Is(x, FR.AT_DATA, []) && Sparsable(x) && SoundBody(x) && End(x) <= |record|
                 && LastLcnDropped(record, edited, x)
    ensures var chain := Chain(record, First(record)).value;
            First(edited) == First(record) && Chain(edited, First(edited)) == Ok(chain[t := Sparse(chain[t])])
  {
    hide AttrAt, Chain, U32, Runs;
    var chain := Chain(record, First(record)).value;
    var x := chain[t];
    PairReplacement.ChainAt(record, First(record), t);
    assert First(edited) == First(record);
    SparseAttr(record, edited, x);
    PairReplacement.ChainAgrees(record, edited, End(x));
    PairReplacement.ChainEdited(record, edited, First(record), t, Sparse(x));
  }

  /** The view afterwards: that attribute's last run is a hole. */
  function WithHole(v: View, n: nat): View
    requires HasData(v, n) && |Data(v, n).body.runs| > 0
  {
    v[n := v[n][DataAt(v, n) := Sparse(Data(v, n))]]
  }

  /** On a sound layout the operation changes one record and nothing else: its chain has the
      hole, every other live record decodes as before, and so does every other device byte. */
  lemma SparseKeepsVolume(g: Geometry, image: Bytes, v: View, inode: nat, edited: Bytes,
      result: Bytes) returns (at: nat)
    requires Laid(g, image, v) && inode in v && inode != 0 && SparseStored(g, image, inode, edited, result)
    requires ClearArray(g, Record(g, image, inode).value)
    ensures RecordOffset(g, image, inode) == Ok(at) && |result| == |image|
    ensures HasData(v, inode) && |Data(v, inode).body.runs| > 0
    ensures IsView(g, result, WithHole(v, inode)) && OtherRecordsKept(g, image, v, inode, result)
    ensures forall y :: 0 <= y < |image| && !(at <= y < at + g.recordSize) ==> result[y] == image[y]
  {
    hide Record, RecordOffset, Chain, Disjoint, Volumes.Sound, MS.ArrayOk, MS.EncodeArray, FindFrom, Runs, DropLastLcn,
         ClearArray, Span, DataIndex, Sparsable, Sparse;
    ViewData(g, image, v, inode);
    at := RecordPlace(g, image, v, inode);
    var zero := RecordPlace(g, image, v, 0);
    RecordsApart(g, image, v, 0, inode, zero, at);
    OffsetsKept(g, image, result, inode);
    forall n | n in v && n != inode ensures Record(g, result, n) == Record(g, image, n) {
      var own := RecordPlace(g, image, v, n);
      RecordsApart(g, image, v, n, inode, own, at);
      RecordKept(g, image, result, n, own);
    }
    SparseReadsBack(g, image, v, inode, edited, result, at);
    forall n | n in v ensures ChainOf(g, result, n) == Ok(WithHole(v, inode)[n]) {
      assert ChainOf(g, image, n) == Ok(v[n]);
    }
  }

  lemma SparseReadsBack(g: Geometry, image: Bytes, v: View, inode: nat, edited: Bytes, result: Bytes, at: nat)
    requires Sane(g) && IsView(g, image, v) && inode in v && SparseStored(g, image, inode, edited, result)
    requires ClearArray(g, Record(g, image, inode).value) && HasData(v, inode)
    requires RecordOffset(g, image, inode) == RecordOffset(g, result, inode) == Ok(at) && at + g.recordSize <= |image|
    ensures |Data(v, inode).body.runs| > 0 && ChainOf(g, result, inode) == Ok(WithHole(v, inode)[inode])
  {
    hide RecordOffset, Chain, MS.ArrayFree, MS.Decode, MS.ArrayOk, MS.EncodeArray, FindFrom, Runs, U32;
    var record, t := Record(g, image, inode).value, DataAt(v, inode);
    assert ChainOf(g, image, inode) == Ok(v[inode]);
    ViewData(g, image, v, inode);
    PairReplacement.ChainAt(record, First(record), t);
    SparseChain(record, edited, t);
    HeaderCarries(g, record, edited);
    MS.RoundTrip(edited, g.sectorSize, RecordStore.FILE);
    var raw := MS.EncodeArray(edited, g.sectorSize);
    assert Slice(result, at, g.recordSize) == Ok(raw) by { assert result[at..at + g.recordSize] == raw; }
    var r := MS.Decode(raw, g.sectorSize, RecordStore.FILE).value;
    assert First(r) == First(edited) by { assert r[20] == edited[20] && r[21] == edited[21]; }
    PairReplacement.ChainAgrees(edited, r, First(edited));
  }

  // ---------- the edit always exists ----------

  /** For every mapped list of at least two runs, however its pairs are written, there is an
      edited record with just the last LCN gone. */
  lemma DropExists(record: Bytes) returns (edited: Bytes)
    requires |record| >= 28 && DataOf(record).Ok?
    requires var b := DataOf(record).value.body;
             b.nonresident && b.flags == 0 && 2 <= |b.runs| && forall i :: 0 <= i < |b.runs| ==> b.runs[i].lcn.Some?
    ensures var x := DataOf(record).value;
            End(x) <= |record| && Pairs(x) < End(x) && LastLcnDropped(record, edited, x)
  {
    hide FindFrom, Bounds, EditEntry, DecodePairs, DropLastLcn;
    var x := DataOf(record).value;
    FoundPairs(record);
    var region, m := record[Pairs(x)..End(x)], Pairs(x);
    OneEntryPerRun(region, m, x.body.lowestVcn, 0);
    EditCommutes(region, m, x.body.lowestVcn, 0);
    var entries := Bounds(region, m).value.entries;
    var changed := EditEntry(region, entries[|entries| - 1], m);
    edited := Put(record, m, changed);
    assert edited[m..End(x)] == changed;
    NotEmptied(x.body.runs);
  }

  lemma NotEmptied(runs: seq<Run>)
    requires |runs| > 0
    ensures DropLastLcn(runs) != []
  {
  }

  // ---------- after a fragmentation ----------

  /** Keeping the head of a record keeps its array clear. */
  lemma ClearKept(g: Geometry, record: Bytes, after: Bytes, x: Attr)
    requires ClearArray(g, record) && HeadKept(record, after, x)
    requires 28 <= x.offset && 64 <= x.body.mapping
    ensures ClearArray(g, after)
  {
    hide MS.ArrayFree;
    assert forall j :: 0 <= j < 24 ==> after[j] == record[j];
    assert after[..4] == record[..4];
  }

  lemma FoundPast(record: Bytes)
    requires |record| >= 28 && DataOf(record).Ok?
    ensures First(record) <= DataOf(record).value.offset && SoundBody(DataOf(record).value)
  {
    hide AttrAt, FindFrom, U32, SoundBody;
    FoundAt(record, First(record));
  }

  lemma KeptParts(g: Geometry, image: Bytes, v: View, inode: nat, record: Bytes, result: Bytes, out: Outcome,
      length: nat)
    requires Sane(g) && HasData(v, 0) && HasData(v, FILE_BITMAP) && HasData(v, inode)
        && Movable(v, inode, DataAt(v, inode))
    requires Kept(g, image, v, inode, record, result, out, length)
    ensures Laid(g, result, VolumeAfter(v, inode, length, out.newLcn))
    ensures Record(g, result, inode).Ok? && HeadKept(record, Record(g, result, inode).value, Data(v, inode))
  {
    hide Laid, SameContents, OtherRecordsKept, SameElsewhere, Movable, Consistent, ContentIs, DataIndex;
  }

  lemma DropOfSplit(run: Run, to: nat)
    requires run.length >= 2 && run.lcn.Some?
    ensures DropLastLcn(Split(run, to))
        == [Run(run.vcn, run.length - 1, run.lcn), Run(run.vcn + run.length - 1, 1, None)]
  {
  }

  /** The sparse edit on a record whose DATA has just been split in two. */
  lemma SparseOnMoved(g: Geometry, result: Bytes, v: View, inode: nat, length: nat, to: nat, record: Bytes)
    returns (edited: Bytes, after: Bytes)
    requires HasData(v, inode) && Movable(v, inode, DataAt(v, inode)) && inode != 0
    requires Laid(g, result, VolumeAfter(v, inode, length, to)) && Plain(Data(v, inode))
    requires ClearArray(g, record) && 28 <= Data(v, inode).offset && 64 <= Data(v, inode).body.mapping
    requires Record(g, result, inode).Ok? && HeadKept(record, Record(g, result, inode).value, Data(v, inode))
    ensures SparseStored(g, result, inode, edited, after)
    ensures ChainOf(g, after, inode).Ok? && DataIndex(ChainOf(g, after, inode).value).Some?
    ensures var chain := ChainOf(g, after, inode).value;
            chain[DataIndex(chain).value].body.runs == DropLastLcn(Split(Data(v, inode).body.runs[0], to))
  {
    hide Record, RecordOffset, ClearArray, HeadKept, IsView, Volumes.Sound, Disjoint, DataIndex, FindFrom, Chain, Runs,
         DropLastLcn, Split, Stored, MS.ArrayOk, MS.EncodeArray;
    var w := VolumeAfter(v, inode, length, to);
    var moved := Record(g, result, inode).value;
    AfterData(g, result, v, inode, length, to);
    var x := DataOf(moved).value;
    SplitIsMapped(Data(v, inode).body.runs[0], to);
    edited := DropExists(moved);
    FoundPast(moved);
    StillProtectable(g, result, inode, edited);
    after := Stored(g, result, inode, edited).value;
    ClearKept(g, record, moved, Data(v, inode));
    var at := SparseKeepsVolume(g, result, w, inode, edited, after);
    ViewData(g, result, w, inode);
    DataIndexKept(w[inode], DataAt(w, inode), Sparse(Data(w, inode)));
    HoleInView(g, after, w, inode);
  }

  lemma HoleInView(g: Geometry, after: Bytes, w: View, inode: nat)
    requires Sane(g) && HasData(w, inode) && |Data(w, inode).body.runs| > 0 && IsView(g, after, WithHole(w, inode))
    ensures ChainOf(g, after, inode) == Ok(w[inode][DataAt(w, inode) := Sparse(Data(w, inode))])
  {
    hide Record, DataIndex, Chain;
  }

  lemma SplitIsMapped(run: Run, to: nat)
    requires run.length >= 2 && run.lcn.Some?
    ensures forall i :: 0 <= i < |Split(run, to)| ==> Split(run, to)[i].lcn.Some?
  {
  }

  /** Where the record's DATA stands. */
  lemma PreparedPlace(g: Geometry, image: Bytes, v: View, inode: nat)
    requires Laid(g, image, v) && inode in v && Prepared(g, image, inode).Ok?
    requires ClearArray(g, Prepared(g, image, inode).value.record)
    ensures HasData(v, inode) && Plain(Data(v, inode))
    ensures 28 <= Data(v, inode).offset && 64 <= Data(v, inode).body.mapping
  {
    hide Record, RecordOffset, FindFrom, IsView, Disjoint, DataIndex, Volumes.Sound, StreamBytes, MS.Protectable,
         Backed;
    PreparedIff(g, image, v, inode);
    FoundPast(Prepared(g, image, inode).value.record);
  }

  /** The two operations in sequence: after a reported change the sparse edit succeeds on the
      result, and the chain it leaves has the first run and a hole of one cluster as its DATA. */
  lemma SparseAfterFragment(g: Geometry, image: Bytes, v: View, inode: nat) returns (edited: Bytes, after: Bytes)
    requires Consistent(g, image, v) && inode in v && inode != FILE_BITMAP && Fragment(g, image, inode).Ok?
    requires Fragment(g, image, inode).value.1.changed && ClearArray(g, Prepared(g, image, inode).value.record)
    ensures var result := Fragment(g, image, inode).value.0;
            SparseStored(g, result, inode, edited, after)
    ensures HasData(v, inode) && |Data(v, inode).body.runs| == 1 && Data(v, inode).body.runs[0].length >= 2
    ensures ChainOf(g, after, inode).Ok? && DataIndex(ChainOf(g, after, inode).value).Some?
    ensures var chain, run := ChainOf(g, after, inode).value, Data(v, inode).body.runs[0];
            chain[DataIndex(chain).value].body.runs
            == [Run(run.vcn, run.length - 1, run.lcn), Run(run.vcn + run.length - 1, 1, None)]
  {
    hide Prepared, Moving, Targeted, ClearArray, Kept, DataIndex, IsView, Volumes.Sound, Disjoint, RecordOffset, BitOf,
         Owned, Record, LastLcnDropped, Split, FindFrom, HeadKept, Stored, ChainOf, DropLastLcn, SparseStored;
    var length := FragmentKeepsVolume(g, image, v, inode);
    var (result, out) := Fragment(g, image, inode).value;
    var record := Prepared(g, image, inode).value.record;
    KeptParts(g, image, v, inode, record, result, out, length);
    PreparedPlace(g, image, v, inode);
    edited, after := SparseOnMoved(g, result, v, inode, length, out.newLcn, record);
    DropOfSplit(Data(v, inode).body.runs[0], out.newLcn);
  }
}
