/** Where the validator reads a stream's runs and sizes, stated on the attribute's bytes, and
    that the fixture builder reads the same ones. */
module StreamReading {
  import opened Bytes
  import Arithmetic
  import opened Runlist
  import opened Streams
  import opened FileRecords
  import opened JournalAllocation
  import opened RecordStore
  import FX = FixtureRecords
  import C = Census
  import FC = FlagCopies
  import Bitmap

  /** Two bytes of the attribute spell k. */
  predicate Spells(fixed: Bytes, o: nat, k: nat) {
    o + 2 <= |fixed| && fixed[o] as int + 256 * (fixed[o + 1] as int) == k
  }

  /** Pairs that stand where the attribute's offset field says decode to the stream's runs,
      wherever that is and whatever else the attribute holds. */
  lemma RunsReadAt(fixed: Bytes, a: Attribute, k: nat, runs: seq<Run>, e: Bytes)
    requires Inside(a, |fixed|) && a.nonresident && Spells(fixed, a.offset + 32, k)
    requires 64 <= k && k + |e| <= a.length && fixed[a.offset + k..a.offset + k + |e|] == e
    requires runs != [] && EncodePairs(runs, 0, 0) == Ok(e)
    ensures AttributeRuns(fixed, a) == Ok(runs)
  {
    hide EncodePairs, DecodePairs;
    EncodedNotEmpty(runs, 0, 0);
    var tail := fixed[a.offset + k..a.offset + a.length];
    assert tail == e + tail[|e|..];
    RoundTrip(runs, 0, 0, tail[|e|..]);
  }

  lemma EncodedNotEmpty(runs: seq<Run>, vcn: nat, lcn: nat)
    requires EncodePairs(runs, vcn, lcn).Ok?
    ensures |EncodePairs(runs, vcn, lcn).value| > 0
  {
  }

  /** Every byte of fixed[lo..hi] is b. */
  predicate Filled(fixed: Bytes, lo: nat, hi: nat, b: int) {
    lo <= hi <= |fixed| && forall i :: lo <= i < hi ==> fixed[i] as int == b
  }

  /** A terminator alone is an empty stream exactly when flags, lowest VCN and the three sizes
      are zero and the last VCN is all ones; otherwise it is refused. */
  lemma EmptyStream(fixed: Bytes, a: Attribute, k: nat)
    requires Inside(a, |fixed|) && a.nonresident && Spells(fixed, a.offset + 32, k)
    requires 64 <= k < a.length && fixed[a.offset + k] == 0
    ensures var o := a.offset;
            AttributeRuns(fixed, a)
            == if a.flags == 0 && Filled(fixed, o + 16, o + 24, 0) && Filled(fixed, o + 24, o + 32, 0xFF)
                  && Filled(fixed, o + 40, o + 64, 0)
               then Ok([]) else Err
  {
    hide U64, DecodePairs, Filled;
    var o := a.offset;
    TerminatorDecodes(fixed[o + k..o + a.length]);
    ZeroWord(fixed, o + 16);
    OnesWord(fixed, o + 24);
    ZeroWord(fixed, o + 40);
    ZeroWord(fixed, o + 48);
    ZeroWord(fixed, o + 56);
    FilledSplits(fixed, o + 40, o + 48, o + 64, 0);
    FilledSplits(fixed, o + 48, o + 56, o + 64, 0);
  }

  lemma FilledSplits(fixed: Bytes, lo: nat, mid: nat, hi: nat, b: int)
    requires lo <= mid <= hi <= |fixed|
    ensures Filled(fixed, lo, hi, b) <==> Filled(fixed, lo, mid, b) && Filled(fixed, mid, hi, b)
  {
  }

  lemma TerminatorDecodes(s: Bytes)
    requires |s| > 0 && s[0] == 0
    ensures DecodePairs(s, 0, 0) == Ok([])
  {
  }

  lemma ZeroWord(fixed: Bytes, o: nat)
    requires o + 8 <= |fixed|
    ensures U64(fixed, o) == 0 <==> Filled(fixed, o, o + 8, 0)
  {
    assert Filled(fixed, o, o + 8, 0) <==>
        fixed[o] == fixed[o + 1] == fixed[o + 2] == fixed[o + 3] == 0
        && fixed[o + 4] == fixed[o + 5] == fixed[o + 6] == fixed[o + 7] == 0;
  }

  lemma OnesWord(fixed: Bytes, o: nat)
    requires o + 8 <= |fixed|
    ensures U64(fixed, o) == 0xFFFF_FFFF_FFFF_FFFF <==> Filled(fixed, o, o + 8, 0xFF)
  {
    assert Filled(fixed, o, o + 8, 0xFF) <==>
        fixed[o] == fixed[o + 1] == fixed[o + 2] == fixed[o + 3] == 0xFF
        && fixed[o + 4] == fixed[o + 5] == fixed[o + 6] == fixed[o + 7] == 0xFF;
  }

  /** Eight bytes hold v, least significant first. */
  predicate HoldsWord(s: Bytes, o: nat, v: nat) {
    o + 8 <= |s| && v < 0x1_0000_0000_0000_0000 && s[o..o + 8] == ToLe(v, 8)
  }

  lemma WordRead(s: Bytes, o: nat, v: nat)
    requires HoldsWord(s, o, v)
    ensures U64(s, o) == v
  {
    hide ToLe, U64, FromLe;
    U64IsFromLe(s, o);
    assert Pow256(8) == 256 * (256 * (256 * (256 * (256 * (256 * (256 * (256 * Pow256(0))))))));
    FromLeOfToLe(v, 8);
  }

  /** The allocated, data and initialized sizes are the words at 40, 48 and 56. */
  lemma SizesReadAt(fixed: Bytes, a: Attribute, room: nat, logical: nat, initialized: nat)
    requires Inside(a, |fixed|) && a.nonresident && 64 <= a.length
    requires HoldsWord(fixed, a.offset + 40, room) && HoldsWord(fixed, a.offset + 48, logical)
    requires HoldsWord(fixed, a.offset + 56, initialized)
    ensures StreamSizes(fixed, a) == Ok(Sizes(room, logical, initialized))
  {
    hide HoldsWord, U64;
    WordRead(fixed, a.offset + 40, room);
    WordRead(fixed, a.offset + 48, logical);
    WordRead(fixed, a.offset + 56, initialized);
  }

  lemma SliceWords(fixed: Bytes, lo: nat, hi: nat, o: nat)
    requires lo <= hi <= |fixed| && o + 8 <= hi - lo
    ensures U16(fixed[lo..hi], o) == U16(fixed, lo + o) && U64(fixed[lo..hi], o) == U64(fixed, lo + o)
  {
  }

  /** On a mapped attribute of lowest VCN 0 the validator and the fixture builder read the
      same runs, data size and flags, each from the other's acceptance. */
  lemma ReadersAgree(fixed: Bytes, a: Attribute)
    requires Inside(a, |fixed|) && a.nonresident && a.flags == U16(fixed, a.offset + 12)
    requires fixed[a.offset + 8] != 0 && U64(fixed, a.offset + 16) == 0
    requires FX.NameOf(fixed[a.offset..a.offset + a.length]).Ok? && !(FX.Packed(a.flags) && a.length < 72)
    ensures var b := FX.BodyOf(fixed[a.offset..a.offset + a.length]);
            && (b.Ok? <==> AttributeRuns(fixed, a).Ok? && AttributeRuns(fixed, a).value != [])
            && (b.Ok? ==>
                && AttributeRuns(fixed, a) == Ok(b.value.runs) && b.value.flags == a.flags
                && StreamSizes(fixed, a).Ok? && StreamSizes(fixed, a).value.logical == b.value.dataSize)
  {
    hide DecodePairs, U16, U64, U32, FX.NameOf;
    var o, s := a.offset, fixed[a.offset..a.offset + a.length];
    assert s[8] == fixed[o + 8];
    if a.length >= 64 {
      SliceWords(fixed, o, o + a.length, 12);
      SliceWords(fixed, o, o + a.length, 16);
      SliceWords(fixed, o, o + a.length, 32);
      SliceWords(fixed, o, o + a.length, 48);
      var k := U16(fixed, o + 32);
      if 64 <= k < a.length {
        assert s[k..] == fixed[o + k..o + a.length];
      }
    }
  }

  // ---------- the record's own tests ----------

  /** The header bytes of an eligible record: no directory, no base record, one link. */
  predicate PlainBase(fixed: Bytes)
    requires |fixed| >= 48
  {
    fixed[22] / 2 % 2 == 0 && Filled(fixed, 32, 40, 0) && fixed[18] == 1 && fixed[19] == 0
  }

  lemma HeaderWords(fixed: Bytes)
    requires |fixed| >= 48
    ensures PlainBase(fixed) <==> U16(fixed, 22) / 2 % 2 == 0 && U64(fixed, 32) == 0 && U16(fixed, 18) == 1
  {
    ZeroWord(fixed, 32);
    LowBits(fixed[22], fixed[23]);
  }

  lemma LowBits(low: byte, high: byte)
    ensures (low + 0x100 * (high as int)) / 2 % 2 == low / 2 % 2
  {
    var l: int, h: int := low, high;
    assert l + 0x100 * h == 2 * (l / 2 + 128 * h) + l % 2;
    assert (l + 0x100 * h) / 2 == l / 2 + 128 * h;
  }

  lemma WordHeld(s: Bytes, o: nat, v: nat)
    requires o + 8 <= |s| && v < 0x1_0000_0000_0000_0000
    ensures U64(s, o) == v <==> HoldsWord(s, o, v)
  {
    hide ToLe, U64, FromLe;
    U64IsFromLe(s, o);
    assert Pow256(8) == 256 * (256 * (256 * (256 * (256 * (256 * (256 * (256 * Pow256(0))))))));
    FromLeOfToLe(v, 8);
    ToLeOfFromLe(s[o..o + 8]);
  }

  lemma {:induction false} NoData(attrs: seq<Attribute>)
    requires forall i :: 0 <= i < |attrs| ==> attrs[i].typeCode != 0x80
    ensures DataAttributes(attrs) == []
  {
    if attrs != [] { NoData(attrs[1..]); }
  }

  lemma {:induction false} OnlyData(attrs: seq<Attribute>, t: nat)
    requires t < |attrs| && attrs[t].typeCode == 0x80
    requires forall i :: 0 <= i < |attrs| && i != t ==> attrs[i].typeCode != 0x80
    ensures DataAttributes(attrs) == [attrs[t]]
  {
    if t == 0 {
      NoData(attrs[1..]);
    } else {
      OnlyData(attrs[1..], t - 1);
    }
  }

  /** Runs are only read from a mapped attribute with room for the sizes. */
  lemma RunsNeedRoom(fixed: Bytes, a: Attribute)
    requires Inside(a, |fixed|) && AttributeRuns(fixed, a).Ok?
    ensures a.nonresident && a.length >= 64
  {
    hide DecodePairs;
  }

  /** An eligible record, test by test on its bytes: the header above, no attribute list, one
      DATA attribute, unnamed, mapped and unflagged, all three sizes the required one, and
      mapped in-volume runs that add up to it. */
  lemma EligibleBytes(record: FileRecord, total: nat, size: nat, requireOneRun: bool, t: nat, runs: seq<Run>)
    requires WellFormed(record) && t < |record.attributes| && record.attributes[t].typeCode == 0x80
    requires forall i :: 0 <= i < |record.attributes| && i != t ==> record.attributes[i].typeCode != 0x80
    requires AttributeRuns(record.fixed, record.attributes[t]) == Ok(runs) && size < 0x1_0000_0000_0000_0000
    ensures var a := record.attributes[t];
            Eligible(record, total, size, requireOneRun)
            <==> && PlainBase(record.fixed) && size % 4096 == 0
                 && (forall i :: 0 <= i < |record.attributes| ==> record.attributes[i].typeCode != 0x20)
                 && a.nameLength == 0 && a.flags == 0
                 && HoldsWord(record.fixed, a.offset + 40, size) && HoldsWord(record.fixed, a.offset + 48, size)
                 && HoldsWord(record.fixed, a.offset + 56, size)
                 && (forall i :: 0 <= i < |runs| ==> runs[i].lcn.Some? && runs[i].lcn.value + runs[i].length <= total)
                 && 4096 * SumLengths(runs) == size && (requireOneRun ==> |runs| == 1)
  {
    hide AttributeRuns, U64, U16, HoldsWord, Filled, Arithmetic.Span, PlainBase, DataAttributes, SumLengths;
    OnlyData(record.attributes, t);
    HeaderWords(record.fixed);
    var a := record.attributes[t];
    RunsNeedRoom(record.fixed, a);
    WordHeld(record.fixed, a.offset + 40, size);
    WordHeld(record.fixed, a.offset + 48, size);
    WordHeld(record.fixed, a.offset + 56, size);
    Arithmetic.SpanIsProduct(SumLengths(runs), CLUSTER);
    assert a in record.attributes;
  }

  /** An eligible record has exactly one DATA attribute, so the statement above covers it. */
  lemma EligibleHasOneData(record: FileRecord, total: nat, size: nat, requireOneRun: bool) returns (t: nat)
    requires WellFormed(record) && Eligible(record, total, size, requireOneRun)
    ensures t < |record.attributes| && record.attributes[t].typeCode == 0x80
    ensures forall i :: 0 <= i < |record.attributes| && i != t ==> record.attributes[i].typeCode != 0x80
    ensures AttributeRuns(record.fixed, record.attributes[t]).Ok?
  {
    hide AttributeRuns, StreamSizes, InVolume, SumLengths;
    t := SoleData(record.attributes);
  }

  lemma {:induction false} SoleData(attrs: seq<Attribute>) returns (t: nat)
    requires |DataAttributes(attrs)| == 1
    ensures t < |attrs| && attrs[t].typeCode == 0x80 && DataAttributes(attrs)[0] == attrs[t]
    ensures forall i :: 0 <= i < |attrs| && i != t ==> attrs[i].typeCode != 0x80
  {
    if attrs[0].typeCode == 0x80 {
      t := 0;
      NoneLeft(attrs[1..]);
    } else {
      t := SoleData(attrs[1..]);
      t := t + 1;
    }
  }

  lemma {:induction false} NoneLeft(attrs: seq<Attribute>)
    requires DataAttributes(attrs) == []
    ensures forall i :: 0 <= i < |attrs| ==> attrs[i].typeCode != 0x80
  {
    if attrs != [] { NoneLeft(attrs[1..]); }
  }

  // ---------- the other streams ----------

  /** Cluster c belongs to one of the runs. */
  predicate Has(runs: seq<Run>, c: nat) {
    exists i :: 0 <= i < |runs| && runs[i].lcn.Some? && runs[i].lcn.value <= c < runs[i].lcn.value + runs[i].length
  }

  /** The bit loop asks for exactly the clusters of the runs. */
  lemma MarkedIs(runs: seq<Run>, bitmap: Bytes)
    requires Mapped(runs)
    ensures AllMarked(runs, bitmap) <==> forall c: nat :: Has(runs, c) ==> Bitmap.IsSet(bitmap, c)
  {
    hide Bitmap.IsSet;
    if forall c: nat :: Has(runs, c) ==> Bitmap.IsSet(bitmap, c) {
      forall i, c | 0 <= i < |runs| && runs[i].lcn.value <= c < runs[i].lcn.value + runs[i].length
        ensures Bitmap.IsSet(bitmap, c)
      {
        assert Has(runs, c);
      }
    }
  }

  predicate Positive(runs: seq<Run>) {
    forall i :: 0 <= i < |runs| ==> runs[i].length > 0
  }

  /** The interval tests against the metadata streams refuse exactly a shared cluster. */
  lemma ClearIsApart(runs: seq<Run>, metadata: seq<seq<Run>>)
    requires Positive(runs) && forall j :: 0 <= j < |metadata| ==> Positive(metadata[j])
    ensures ClearOfMetadata(runs, metadata) <==>
        forall j, c: nat :: 0 <= j < |metadata| && Has(metadata[j], c) ==> !Has(runs, c)
  {
    if ClearOfMetadata(runs, metadata) {
      forall j, c: nat | 0 <= j < |metadata| && Has(metadata[j], c) ensures !Has(runs, c) {
        var k :| 0 <= k < |metadata[j]| && metadata[j][k].lcn.Some?
          && metadata[j][k].lcn.value <= c < metadata[j][k].lcn.value + metadata[j][k].length;
        assert forall i :: 0 <= i < |runs| ==> !Overlap(runs[i], metadata[j][k]);
      }
    } else {
      var i, j, k :| 0 <= i < |runs| && 0 <= j < |metadata| && 0 <= k < |metadata[j]|
          && Overlap(runs[i], metadata[j][k]);
      var a, b := runs[i], metadata[j][k];
      var c := if a.lcn.value < b.lcn.value then b.lcn.value else a.lcn.value;
      assert a.length > 0 && b.length > 0;
      assert Has(metadata[j], c) && Has(runs, c);
    }
  }
}
