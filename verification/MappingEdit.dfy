/** The boundary walk over mapping pairs and the in-place edit that turns the
    last run of a stream into a hole by dropping its LCN bytes. */
module MappingEdit {
  import opened Bytes
  import opened Runlist

  /** A pair's offset in the record and the widths of its two fields. */
  datatype Entry = Entry(offset: nat, lengthWidth: nat, offsetWidth: nat)

  datatype Walk = Walk(entries: seq<Entry>, terminator: nat)

  /** The entry at the head of s, which must leave room for what follows it. */
  function FirstEntry(s: Bytes, at: nat): (r: Result<Entry>)
    requires |s| > 0 && s[0] != 0
    ensures r.Ok? ==> r.value.offset == at && Size(r.value) < |s| && 1 <= r.value.lengthWidth
    ensures r.Ok? ==> s[0] == r.value.offsetWidth * 16 + r.value.lengthWidth
  {
    var lw, ow := s[0] % 16, s[0] / 16;
    if lw == 0 || lw > 8 || ow > 8 || 1 + lw + ow >= |s| then Err else Ok(Entry(at, lw, ow))
  }

  function Size(e: Entry): nat {
    1 + e.lengthWidth + e.offsetWidth
  }

  /** The walk over the pairs at the head of s, which starts at offset `at`. */
  function Bounds(s: Bytes, at: nat): (r: Result<Walk>)
    decreases |s|
  {
    if |s| == 0 then Err
    else if s[0] == 0 then Ok(Walk([], at))
    else
      match FirstEntry(s, at)
      case Err => Err
      case Ok(e) =>
        match Bounds(s[Size(e)..], at + Size(e))
        case Err => Err
        case Ok(w) => Ok(Walk([e] + w.entries, w.terminator))
  }

  function AfterEntries(entries: seq<Entry>, r: Result<Walk>): Result<Walk> {
    if r.Err? then Err else Ok(Walk(entries + r.value.entries, r.value.terminator))
  }

  lemma EntryAtCursor(s: Bytes, cursor: nat, end: nat)
    requires cursor < end <= |s| && s[cursor] != 0
    ensures var lw, ow := s[cursor] % 16, s[cursor] / 16;
            FirstEntry(s[cursor..end], cursor)
            == if lw == 0 || lw > 8 || ow > 8 || cursor + 1 + lw + ow >= end then Err else Ok(Entry(cursor, lw, ow))
  {
  }

  /** One turn of the walk's loop. */
  lemma BoundsTurn(s: Bytes, cursor: nat, end: nat, entries: seq<Entry>)
    requires cursor <= end <= |s|
    ensures var all := AfterEntries(entries, Bounds(s[cursor..end], cursor));
            if cursor == end then all == Err
            else if s[cursor] == 0 then all == Ok(Walk(entries, cursor))
            else
              var lw, ow := s[cursor] % 16, s[cursor] / 16;
              if lw == 0 || lw > 8 || ow > 8 || cursor + 1 + lw + ow >= end then all == Err
              else all == AfterEntries(entries + [Entry(cursor, lw, ow)],
                                       Bounds(s[cursor + 1 + lw + ow..end], cursor + 1 + lw + ow))
  {
    hide FirstEntry;
    assert entries + [] == entries;
    if cursor < end && s[cursor] != 0 {
      var first := FirstEntry(s[cursor..end], cursor);
      EntryAtCursor(s, cursor, end);
      if first.Ok? {
        var e := first.value;
        assert s[cursor..end][Size(e)..] == s[cursor + Size(e)..end];
        var more := Bounds(s[cursor + Size(e)..end], cursor + Size(e));
        if more.Ok? {
          assert entries + ([e] + more.value.entries) == entries + [e] + more.value.entries;
        }
      }
    }
  }

  /** mapping_pair_bounds of the fixture builder. */
  method MappingPairBounds(record: Bytes, mappingOffset: nat, end: nat) returns (r: Result<Walk>)
    requires mappingOffset <= end <= |record|
    ensures r == Bounds(record[mappingOffset..end], mappingOffset)
  {
    hide Bounds, AfterEntries;
    var cursor: nat, entries: seq<Entry> := mappingOffset, [];
    NoEntries(Bounds(record[mappingOffset..end], mappingOffset));
    while cursor < end
      invariant cursor <= end
      invariant Bounds(record[mappingOffset..end], mappingOffset)
          == AfterEntries(entries, Bounds(record[cursor..end], cursor))
    {
      var header := record[cursor];
      BoundsTurn(record, cursor, end, entries);
      if header == 0 { return Ok(Walk(entries, cursor)); }
      var lengthWidth, offsetWidth := header % 16, header / 16;
      if lengthWidth == 0 || lengthWidth > 8 || offsetWidth > 8 || cursor + 1 + lengthWidth + offsetWidth >= end {
        return Err;
      }
      entries := entries + [Entry(cursor, lengthWidth, offsetWidth)];
      cursor := cursor + 1 + lengthWidth + offsetWidth;
    }
    BoundsTurn(record, cursor, end, entries);
    r := Err;
  }

  lemma NoEntries(r: Result<Walk>)
    ensures AfterEntries([], r) == r
  {
    if r.Ok? {
      assert [] + r.value.entries == r.value.entries;
    }
  }

  /** The entry that goes with a run. */
  predicate Describes(e: Entry, run: Run) {
    e.offsetWidth > 0 <==> run.lcn.Some?
  }

  /** Whatever the decoder accepts the walk accepts, with one entry per run and
      the terminator inside the array. */
  lemma {:induction false} OneEntryPerRun(s: Bytes, at: nat, vcn: nat, lcn: nat)
    requires DecodePairs(s, vcn, lcn).Ok?
    ensures var runs, r := DecodePairs(s, vcn, lcn).value, Bounds(s, at);
            && r.Ok? && |r.value.entries| == |runs|
            && at <= r.value.terminator < at + |s| && s[r.value.terminator - at] == 0
            && (forall i :: 0 <= i < |runs| ==> Describes(r.value.entries[i], runs[i]))
            && (forall i :: 0 <= i < |runs| ==>
                at <= r.value.entries[i].offset
                    && r.value.entries[i].offset + Size(r.value.entries[i]) <= r.value.terminator)
    decreases |s|
  {
    hide FirstPair, FirstEntry;
    if s[0] != 0 {
      PairAndEntry(s, at, lcn);
      var p := FirstPair(s, lcn).value;
      OneEntryPerRun(s[p.size..], at + p.size, vcn + p.length, p.base);
    }
  }

  lemma PairAndEntry(s: Bytes, at: nat, lcn: nat)
    requires |s| > 0 && s[0] != 0 && FirstPair(s, lcn).Ok? && |s| > FirstPair(s, lcn).value.size
    ensures FirstEntry(s, at).Ok?
    ensures var e, p := FirstEntry(s, at).value, FirstPair(s, lcn).value;
            Size(e) == p.size && (e.offsetWidth > 0 <==> p.lcn.Some?)
  {
  }

  // ---------- dropping the last LCN ----------

  function DropLastLcn(runs: seq<Run>): (r: seq<Run>)
    requires |runs| > 0
    ensures |r| == |runs| && r[|r| - 1].lcn == None
  {
    runs[..|runs| - 1] + [runs[|runs| - 1].(lcn := None)]
  }

  /** The edit: the last pair keeps its length, the tail of the region moves down
      over its delta, and zeros fill the end. */
  function EditEntry(s: Bytes, e: Entry, at: nat): (r: Bytes)
    requires at <= e.offset && e.offset - at + Size(e) <= |s| && e.lengthWidth < 256
    ensures |r| == |s|
  {
    var o := e.offset - at;
    s[..o] + [e.lengthWidth] + s[o + 1..o + 1 + e.lengthWidth] + s[o + Size(e)..] + Zeros(e.offsetWidth)
  }

  /** A pair is read from its own bytes alone. */
  lemma FirstPairLocal(s: Bytes, t: Bytes, lcn: nat)
    requires |s| > 0 && s[0] != 0 && FirstPair(s, lcn).Ok?
    requires FirstPair(s, lcn).value.size <= |t|
    requires s[..FirstPair(s, lcn).value.size] == t[..FirstPair(s, lcn).value.size]
    ensures t[0] == s[0] && FirstPair(t, lcn) == FirstPair(s, lcn)
  {
    var k, lw := FirstPair(s, lcn).value.size, s[0] % 16;
    assert s[..k][0] == t[..k][0];
    SliceOfPrefix(s, k, 1, 1 + lw);
    SliceOfPrefix(t, k, 1, 1 + lw);
    SliceOfPrefix(s, k, 1 + lw, k);
    SliceOfPrefix(t, k, 1 + lw, k);
  }

  lemma SliceOfPrefix(s: Bytes, k: nat, lo: nat, hi: nat)
    requires lo <= hi <= k <= |s|
    ensures s[..k][lo..hi] == s[lo..hi]
  {
  }

  /** The pair without its delta describes a hole of the same length. */
  lemma HolePair(s: Bytes, t: Bytes, lcn: nat)
    requires |s| > 0 && s[0] != 0 && FirstPair(s, lcn).Ok?
    requires var lw := s[0] % 16; 1 + lw <= |t| && t[0] == lw && t[1..1 + lw] == s[1..1 + lw]
    ensures t[0] != 0
    ensures FirstPair(t, lcn) == Ok(Pair(1 + s[0] % 16, FirstPair(s, lcn).value.length, None, lcn))
  {
  }

  lemma EditSplits(s: Bytes, e: Entry, at: nat, k: nat)
    requires at + k <= e.offset && e.offset - at + Size(e) <= |s| && e.lengthWidth < 256
    ensures EditEntry(s, e, at)[..k] == s[..k]
    ensures EditEntry(s, e, at)[k..] == EditEntry(s[k..], e, at + k)
  {
    var o := e.offset - at;
    assert s[k..][o - k + 1..o - k + 1 + e.lengthWidth] == s[o + 1..o + 1 + e.lengthWidth];
    assert s[k..][o - k + Size(e)..] == s[o + Size(e)..];
  }

  /** Dropping the last delta in place commutes with decoding: the edited region
      decodes to the same runs with only the last LCN removed. */
  lemma {:induction false} EditCommutes(s: Bytes, at: nat, vcn: nat, lcn: nat)
    requires DecodePairs(s, vcn, lcn).Ok? && |DecodePairs(s, vcn, lcn).value| > 0
    requires Bounds(s, at).Ok? && |Bounds(s, at).value.entries| == |DecodePairs(s, vcn, lcn).value|
    ensures var runs, entries := DecodePairs(s, vcn, lcn).value, Bounds(s, at).value.entries;
            var e := entries[|entries| - 1];
            && at <= e.offset && e.offset - at + Size(e) <= |s| && e.lengthWidth < 256
            && DecodePairs(EditEntry(s, e, at), vcn, lcn) == Ok(DropLastLcn(runs))
    decreases |s|
  {
    hide FirstPair, FirstEntry, EditEntry, DropLastLcn, DecodePairs, Bounds;
    var entries := Bounds(s, at).value.entries;
    var p, _, more, walk := StepBoth(s, at, vcn, lcn, DecodePairs(s, vcn, lcn).value, entries);
    var run, rest := Run(vcn, p.length, p.lcn), s[p.size..];
    if more == [] {
      assert [run] + more == [run];
      EditOnly(s, at, vcn, lcn);
      DropOnly(run);
    } else {
      EditCommutes(rest, at + p.size, vcn + p.length, p.base);
      var e := entries[|entries| - 1];
      EditSplits(s, e, at, p.size);
      var edited := EditEntry(s, e, at);
      FirstPairLocal(s, edited, lcn);
      DecodeStep(edited, vcn, lcn);
      DropTail(run, more);
    }
  }

  lemma DecodeStep(s: Bytes, vcn: nat, lcn: nat)
    requires |s| > 0 && s[0] != 0 && FirstPair(s, lcn).Ok?
    ensures var p := FirstPair(s, lcn).value;
            DecodePairs(s, vcn, lcn)
                == Prepend(Run(vcn, p.length, p.lcn), DecodePairs(s[p.size..], vcn + p.length, p.base))
  {
    hide FirstPair;
  }

  /** Decoder and walk take their first step together. */
  lemma StepBoth(s: Bytes, at: nat, vcn: nat, lcn: nat, runs: seq<Run>, entries: seq<Entry>)
    returns (p: Pair, e: Entry, more: seq<Run>, walk: Walk)
    requires DecodePairs(s, vcn, lcn) == Ok(runs) && |runs| > 0 && |entries| == |runs|
    requires Bounds(s, at).Ok? && Bounds(s, at).value.entries == entries
    ensures |s| > 0 && s[0] != 0 && FirstPair(s, lcn) == Ok(p) && FirstEntry(s, at) == Ok(e) && Size(e) == p.size < |s|
    ensures DecodePairs(s[p.size..], vcn + p.length, p.base) == Ok(more) && runs == [Run(vcn, p.length, p.lcn)] + more
    ensures Bounds(s[p.size..], at + p.size) == Ok(walk) && entries == [e] + walk.entries
    ensures more == [] ==> s[p.size] == 0
  {
    hide FirstPair, FirstEntry;
    PairAndEntry(s, at, lcn);
    p, e := FirstPair(s, lcn).value, FirstEntry(s, at).value;
    more, walk := DecodePairs(s[p.size..], vcn + p.length, p.base).value, Bounds(s[p.size..], at + p.size).value;
  }

  lemma DropOnly(run: Run)
    ensures DropLastLcn([run]) == [run.(lcn := None)]
  {
  }

  lemma DropTail(run: Run, more: seq<Run>)
    requires more != []
    ensures DropLastLcn([run] + more) == [run] + DropLastLcn(more)
  {
  }

  /** The last pair itself. */
  lemma EditOnly(s: Bytes, at: nat, vcn: nat, lcn: nat)
    requires |s| > 0 && s[0] != 0 && FirstPair(s, lcn).Ok? && FirstEntry(s, at).Ok?
    requires FirstPair(s, lcn).value.size < |s| && s[FirstPair(s, lcn).value.size] == 0
    ensures var p, e := FirstPair(s, lcn).value, FirstEntry(s, at).value;
            && e.lengthWidth < 256
            && DecodePairs(EditEntry(s, e, at), vcn, lcn) == Ok([Run(vcn, p.length, None)])
  {
    var p, e := FirstPair(s, lcn).value, FirstEntry(s, at).value;
    var t := EditEntry(s, e, at);
    var lw := s[0] % 16;
    assert t[1..1 + lw] == s[1..1 + lw];
    HolePair(s, t, lcn);
    assert t[1 + lw..][0] == s[p.size];
    var run := Run(vcn, p.length, None);
    assert [run] + [] == [run];
  }

  /** The three slice assignments amount to the edit of the region alone. */
  lemma InPlaceEdit(record: Bytes, edited: Bytes, m: nat, end: nat, e: Entry)
    requires m <= e.offset && e.offset + Size(e) <= end <= |record| && e.lengthWidth < 256
    requires edited == Put(Put(Put(record, e.offset, [e.lengthWidth]),
                               e.offset + 1 + e.lengthWidth, record[e.offset + Size(e)..end]),
                           end - e.offsetWidth, Zeros(e.offsetWidth))
    ensures |edited| == |record|
    ensures edited[m..end] == EditEntry(record[m..end], e, m)
    ensures edited[..m] == record[..m] && edited[end..] == record[end..]
  {
    hide EditEntry, Zeros;
    var region := record[m..end];
    forall k | 0 <= k < end - m ensures edited[m..end][k] == EditEntry(region, e, m)[k] {
      EditEntryAt(region, e, m, k);
      assert edited[m..end][k] == edited[m + k];
    }
  }

  lemma EditEntryAt(s: Bytes, e: Entry, at: nat, j: nat)
    requires at <= e.offset && e.offset - at + Size(e) <= |s| && e.lengthWidth < 256 && j < |s|
    ensures var o := e.offset - at;
            EditEntry(s, e, at)[j]
            == if j == o then e.lengthWidth
               else if j < o + 1 + e.lengthWidth then s[j]
               else if j < |s| - e.offsetWidth then s[j + e.offsetWidth] else 0
  {
  }

  /** The slice assignments of the edit, in the order the builder makes them. */
  method DropLcnBytes(record: Bytes, mappingOffset: nat, attributeEnd: nat, last: Entry) returns (edited: Bytes)
    requires mappingOffset <= last.offset && last.offset + Size(last) <= attributeEnd <= |record|
    requires last.lengthWidth < 256
    ensures |edited| == |record|
    ensures edited[mappingOffset..attributeEnd] == EditEntry(record[mappingOffset..attributeEnd], last, mappingOffset)
    ensures edited[..mappingOffset] == record[..mappingOffset] && edited[attributeEnd..] == record[attributeEnd..]
  {
    hide Put, EditEntry;
    var remainder := record[last.offset + Size(last)..attributeEnd];
    edited := Put(record, last.offset, [last.lengthWidth]);
    edited := Put(edited, last.offset + 1 + last.lengthWidth, remainder);
    edited := Put(edited, attributeEnd - last.offsetWidth, Zeros(last.offsetWidth));
    InPlaceEdit(record, edited, mappingOffset, attributeEnd, last);
  }

  /** The mapping-pair edit of corrupt_unflagged_sparse_run, on the attribute whose
      pairs fill record[mappingOffset..attributeEnd]. */
  method DropLastRun(record: Bytes, mappingOffset: nat, attributeEnd: nat, lowestVcn: nat)
    returns (r: Result<Bytes>)
    requires mappingOffset < attributeEnd <= |record|
    ensures r.Ok? <==>
              var runs := Runs(record[mappingOffset..attributeEnd], lowestVcn, false);
              runs.Ok? && 2 <= |runs.value| && forall i :: 0 <= i < |runs.value| ==> runs.value[i].lcn.Some?
    ensures r.Ok? ==>
              && |r.value| == |record|
              && r.value[..mappingOffset] == record[..mappingOffset]
              && r.value[attributeEnd..] == record[attributeEnd..]
              && r.value[mappingOffset..attributeEnd] != record[mappingOffset..attributeEnd]
              && Runs(r.value[mappingOffset..attributeEnd], lowestVcn, false)
                 == Ok(DropLastLcn(Runs(record[mappingOffset..attributeEnd], lowestVcn, false).value))
  {
    hide Bounds, EditEntry, FirstPair, DecodePairs, DropLastLcn;
    var region := record[mappingOffset..attributeEnd];
    var runs := Runs(region, lowestVcn, false);
    if runs.Err? || |runs.value| < 2 || !Mapped(runs.value) { return Err; }
    var walk := MappingPairBounds(record, mappingOffset, attributeEnd);
    OneEntryPerRun(region, mappingOffset, lowestVcn, 0);
    EditCommutes(region, mappingOffset, lowestVcn, 0);
    if walk.Err? || |walk.value.entries| != |runs.value| { return Err; }
    var last := walk.value.entries[|runs.value| - 1];
    assert Describes(last, runs.value[|runs.value| - 1]);
    if last.offsetWidth == 0 { return Err; }
    var edited := DropLcnBytes(record, mappingOffset, attributeEnd, last);
    var mutated := Runs(edited[mappingOffset..attributeEnd], lowestVcn, false);
    if mutated != Ok(DropLastLcn(runs.value)) || edited[mappingOffset..attributeEnd] == region { return Err; }
    r := Ok(edited);
  }
}
