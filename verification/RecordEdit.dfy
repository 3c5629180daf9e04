/** The record edit of ensure_fragmented_data, byte by byte. */
module RecordEdit {
  import opened Bytes
  import opened FixtureRecords
  import opened PairReplacement
  import FR = FileRecords

  /** record[lo..hi] holds the pairs and then zeros. */
  predicate PairsThenZeros(r: Bytes, lo: nat, hi: nat, encoded: Bytes) {
    lo + |encoded| <= hi <= |r| && r[lo..lo + |encoded|] == encoded
        && forall j :: lo + |encoded| <= j < hi ==> r[j] == 0
  }

  lemma PlacedHolds(record: Bytes, lo: nat, hi: nat, encoded: Bytes)
    requires lo + |encoded| <= hi <= |record|
    ensures PairsThenZeros(Placed(record, lo, hi, encoded), lo, hi, encoded)
  {
  }

  /** Pairs that fit: they replace the region, zeros after them, and nothing else changes. */
  lemma PairsFit(record: Bytes, a: Attr, encoded: Bytes)
    requires 28 <= |record| < 0x1_0000_0000 && a.offset + 24 <= End(a) <= |record| && Pairs(a) <= End(a)
    requires Pairs(a) + |encoded| <= End(a)
    ensures Replaced(record, a, encoded).Ok?
    ensures var r := Replaced(record, a, encoded).value;
            && |r| == |record| && PairsThenZeros(r, Pairs(a), End(a), encoded)
            && forall j :: 0 <= j < |r| && !(Pairs(a) <= j < End(a)) ==> r[j] == record[j]
  {
    hide Placed;
    PlacedHolds(record, Pairs(a), End(a), encoded);
    PlacedRegion(record, Pairs(a), End(a), encoded);
  }

  /** The used-bytes field and the bytes past the tail after the growth. */
  lemma GrownUsed(record: Bytes, a: Attr, used: nat, extra: nat)
    requires 28 <= a.offset && a.offset + 24 <= End(a) <= used && used + extra <= |record| < 0x1_0000_0000
    ensures U32(Grown(record, a, used, extra), 24) == used + extra
    ensures forall j :: used + extra <= j < |record| ==> Grown(record, a, used, extra)[j] == record[j]
  {
    hide ToLe, U32;
    var moved := Put(record, End(a) + extra, record[End(a)..used]);
    var resized := Put(Put(moved, End(a), Zeros(extra)), a.offset + 4, ToLe(a.length + extra, 4));
    PutU32(resized, 24, used + extra);
  }

  /** Pairs that do not fit: the attribute ends at the end marker, the least whole number of
      eights that makes room is added, both length fields say so, and everything from the end
      marker to the used bytes moves up by it; nothing else changes. */
  lemma PairsGrow(record: Bytes, a: Attr, encoded: Bytes) returns (used: nat, extra: nat)
    requires 28 <= |record| < 0x1_0000_0000 && 28 <= a.offset && a.offset + 24 <= End(a) <= |record|
    requires a.offset + 24 <= Pairs(a) <= End(a) < Pairs(a) + |encoded| && Replaced(record, a, encoded).Ok?
    ensures used == U32(record, 24) && End(a) + 4 <= used && used + extra <= |record|
    ensures U32(record, End(a)) == 0xFFFF_FFFF
    ensures extra % 8 == 0 && Pairs(a) + |encoded| <= End(a) + extra < Pairs(a) + |encoded| + 8
    ensures var r := Replaced(record, a, encoded).value;
            && |r| == |record| && U32(r, 24) == used + extra && U32(r, a.offset + 4) == a.length + extra
            && PairsThenZeros(r, Pairs(a), End(a) + extra, encoded)
            && (forall j :: End(a) <= j < used ==> r[j + extra] == record[j])
            && (forall j :: 0 <= j < |r| && !(24 <= j < 28) && !InLength(a, j) && !(Pairs(a) <= j < used + extra) ==>
                r[j] == record[j])
  {
    hide Placed, Grown, U32, EndOffset;
    MarkerFound(record);
    used := EndOffset(record).value.1;
    extra := Extra(|encoded| - (End(a) - Pairs(a)));
    var g := Grown(record, a, used, extra);
    GrownBytes(record, a, used, extra);
    GrownUsed(record, a, used, extra);
    PlacedHolds(g, Pairs(a), End(a) + extra, encoded);
    PlacedRegion(g, Pairs(a), End(a) + extra, encoded);
    var r := Placed(g, Pairs(a), End(a) + extra, encoded);
    SameU32(g, r, 24);
    SameU32(g, r, a.offset + 4);
  }

  lemma MarkerFound(record: Bytes)
    requires 28 <= |record|
    ensures EndOffset(record).Ok? ==>
        EndOffset(record).value.1 == U32(record, 24) && U32(record, EndOffset(record).value.0) == 0xFFFF_FFFF
  {
    hide U32, EndFrom;
  }
}
