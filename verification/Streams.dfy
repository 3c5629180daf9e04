/** Stream offsets, device offsets, and reading and writing through a run list.

    `cs` is the cluster size and Span(k, cs) the bytes of k clusters. */
module Streams {
  import opened Bytes
  import opened Arithmetic
  import opened Runlist

  /** Where a byte of a stream lives. */
  datatype Place = Outside | Hole | At(device: nat)

  /** The reference map from stream offsets to places. */
  function Locate(runs: seq<Run>, cs: nat, x: nat): Place {
    if runs == [] then Outside
    else
      var run := runs[0];
      if Span(run.vcn, cs) <= x < Span(run.vcn + run.length, cs) then
        if run.lcn.None? then Hole else At(Span(run.lcn.value, cs) + (x - Span(run.vcn, cs)))
      else Locate(runs[1..], cs, x)
  }

  lemma LocateOne(run: Run, cs: nat, x: nat)
    ensures Locate([run], cs, x)
         == if !(Span(run.vcn, cs) <= x < Span(run.vcn + run.length, cs)) then Outside
            else if run.lcn.None? then Hole else At(Span(run.lcn.value, cs) + (x - Span(run.vcn, cs)))
  {
    hide Span;
    assert [run][1..] == [] && Locate([], cs, x) == Outside;
  }

  // ---------- physical ranges ----------

  /** `bytes` bytes of a stream from `stream`, stored at `device`. */
  datatype Range = Range(stream: nat, device: nat, bytes: nat)

  /** The loop of stream_physical_ranges over the remaining runs. */
  function RangesFrom(runs: seq<Run>, cs: nat, cursor: nat, end: nat): (r: Result<seq<Range>>) {
    if runs == [] then Err
    else
      var run := runs[0];
      var runStart, runEnd := Span(run.vcn, cs), Span(run.vcn + run.length, cs);
      if cursor >= runEnd then RangesFrom(runs[1..], cs, cursor, end)
      else if cursor < runStart || end <= cursor || run.lcn.None? then Err
      else
        var stop := if end < runEnd then end else runEnd;
        var range := Range(cursor, Span(run.lcn.value, cs) + (cursor - runStart), stop - cursor);
        if stop == end then Ok([range])
        else
          match RangesFrom(runs[1..], cs, stop, end)
          case Err => Err
          case Ok(more) => Ok([range] + more)
  }

  /** stream_physical_ranges of the validator. */
  method StreamPhysicalRanges(runs: seq<Run>, cs: nat, offset: nat, length: nat) returns (r: Result<seq<Range>>)
    ensures r == if length == 0 then Err else RangesFrom(runs, cs, offset, offset + length)
  {
    hide RangesFrom;
    if length <= 0 { return Err; }
    var result: seq<Range> := [];
    var cursor: nat, end: nat := offset, offset + length;
    assert runs[0..] == runs;
    JoinRanges([], RangesFrom(runs, cs, offset, end));
    for i := 0 to |runs|
      invariant RangesFrom(runs, cs, offset, end) == WithRanges(result, RangesFrom(runs[i..], cs, cursor, end))
    {
      var run := runs[i];
      var runStart, runEnd := Span(run.vcn, cs), Span(run.vcn + run.length, cs);
      RangesTurn(runs, i, cs, cursor, end, result);
      if cursor >= runEnd { continue; }
      if cursor < runStart { return Err; }
      var take: int := (if end < runEnd then end else runEnd) - cursor;
      if take <= 0 { return Err; }
      if run.lcn.None? { return Err; }
      result := result + [Range(cursor, Span(run.lcn.value, cs) + (cursor - runStart), take)];
      cursor := cursor + take;
      if cursor == end { return Ok(result); }
    }
    assert RangesFrom(runs[|runs|..], cs, cursor, end) == Err by { EmptyRanges(runs[|runs|..], cs, cursor, end); }
    r := Err;
  }

  function WithRanges(result: seq<Range>, r: Result<seq<Range>>): Result<seq<Range>> {
    if r.Err? then Err else Ok(result + r.value)
  }

  lemma JoinRanges(result: seq<Range>, r: Result<seq<Range>>)
    ensures WithRanges([], r) == r
  {
    if r.Ok? {
      assert [] + r.value == r.value;
    }
  }

  lemma EmptyRanges(runs: seq<Run>, cs: nat, cursor: nat, end: nat)
    requires runs == []
    ensures RangesFrom(runs, cs, cursor, end) == Err
  {
  }

  lemma RangesTurn(runs: seq<Run>, i: nat, cs: nat, cursor: nat, end: nat, result: seq<Range>)
    requires i < |runs|
    ensures var all := WithRanges(result, RangesFrom(runs[i..], cs, cursor, end));
            var run := runs[i];
            var runStart, runEnd := Span(run.vcn, cs), Span(run.vcn + run.length, cs);
            if cursor >= runEnd then all == WithRanges(result, RangesFrom(runs[i + 1..], cs, cursor, end))
            else if cursor < runStart || end <= cursor || run.lcn.None? then all == Err
            else
              var stop := if end < runEnd then end else runEnd;
              var now := result + [Range(cursor, Span(run.lcn.value, cs) + (cursor - runStart), stop - cursor)];
              if stop == end then all == Ok(now)
              else all == WithRanges(now, RangesFrom(runs[i + 1..], cs, stop, end))
  {
    hide Span;
    var run, tail := runs[i], runs[i..];
    assert tail[0] == run && tail[1..] == runs[i + 1..];
    var runStart, runEnd := Span(run.vcn, cs), Span(run.vcn + run.length, cs);
    if runStart <= cursor < runEnd && cursor < end && run.lcn.Some? {
      var stop := if end < runEnd then end else runEnd;
      var range := Range(cursor, Span(run.lcn.value, cs) + (cursor - runStart), stop - cursor);
      if stop != end {
        var more := RangesFrom(runs[i + 1..], cs, stop, end);
        if more.Ok? {
          assert result + ([range] + more.value) == result + [range] + more.value;
        }
      }
    }
  }

  /** Ranges that follow one another from `cursor` to `end`, each non-empty. */
  predicate Tiles(ranges: seq<Range>, cursor: nat, end: nat) {
    if ranges == [] then cursor == end
    else ranges[0].stream == cursor && ranges[0].bytes > 0 && Tiles(ranges[1..], cursor + ranges[0].bytes, end)
  }

  /** Every byte of the range lies where the reference map puts it. */
  ghost predicate Faithful(range: Range, runs: seq<Run>, cs: nat) {
    forall x :: range.stream <= x < range.stream + range.bytes ==>
        Locate(runs, cs, x) == At(range.device + (x - range.stream))
  }

  ghost predicate AllMapped(runs: seq<Run>, cs: nat, cursor: nat, end: nat) {
    forall x :: cursor <= x < end ==> Locate(runs, cs, x).At?
  }

  /** Bytes past a run are located by the runs after it. */
  lemma LocateTail(runs: seq<Run>, cs: nat, x: nat)
    requires runs != [] && x >= Span(runs[0].vcn + runs[0].length, cs)
    ensures Locate(runs, cs, x) == Locate(runs[1..], cs, x)
  {
  }

  lemma {:induction false} LocateBelow(runs: seq<Run>, vcn: nat, cs: nat, x: nat)
    requires Contiguous(runs, vcn) && x < Span(vcn, cs)
    ensures Locate(runs, cs, x) == Outside
  {
    if runs != [] {
      SpanMono(vcn, vcn + runs[0].length, cs);
      LocateBelow(runs[1..], vcn + runs[0].length, cs, x);
    }
  }

  lemma MappedTail(runs: seq<Run>, cs: nat, lo: nat, hi: nat)
    requires runs != [] && lo >= Span(runs[0].vcn + runs[0].length, cs)
    ensures AllMapped(runs, cs, lo, hi) <==> AllMapped(runs[1..], cs, lo, hi)
  {
    forall x: nat | lo <= x < hi
      ensures Locate(runs, cs, x) == Locate(runs[1..], cs, x)
    {
      LocateTail(runs, cs, x);
    }
  }

  lemma MappedSplit(runs: seq<Run>, cs: nat, lo: nat, mid: nat, hi: nat)
    requires lo <= mid <= hi
    ensures AllMapped(runs, cs, lo, hi) <==> AllMapped(runs, cs, lo, mid) && AllMapped(runs, cs, mid, hi)
  {
  }

  /** stream_physical_ranges succeeds exactly when every byte asked for is mapped. */
  lemma {:induction false} RangesAccept(runs: seq<Run>, vcn: nat, cs: nat, cursor: nat, end: nat)
    requires Contiguous(runs, vcn) && cursor < end
    ensures RangesFrom(runs, cs, cursor, end).Ok? <==> AllMapped(runs, cs, cursor, end)
  {
    hide Span;
    if runs == [] {
      assert Locate(runs, cs, cursor) == Outside;
    } else {
      var run := runs[0];
      var runStart, runEnd := Span(run.vcn, cs), Span(run.vcn + run.length, cs);
      if cursor >= runEnd {
        RangesAccept(runs[1..], vcn + run.length, cs, cursor, end);
        MappedTail(runs, cs, cursor, end);
      } else if cursor < runStart {
        LocateBelow(runs, vcn, cs, cursor);
      } else if run.lcn.None? {
        assert Locate(runs, cs, cursor) == Hole;
      } else {
        var stop := if end < runEnd then end else runEnd;
        assert AllMapped(runs, cs, cursor, stop);
        if stop < end {
          RangesAccept(runs[1..], vcn + run.length, cs, stop, end);
          MappedTail(runs, cs, stop, end);
          MappedSplit(runs, cs, cursor, stop, end);
        }
      }
    }
  }

  ghost predicate AllFaithful(ranges: seq<Range>, runs: seq<Run>, cs: nat) {
    forall i :: 0 <= i < |ranges| ==> Faithful(ranges[i], runs, cs)
  }

  lemma {:induction false} TilesAbove(ranges: seq<Range>, cursor: nat, end: nat, i: nat)
    requires Tiles(ranges, cursor, end) && i < |ranges|
    ensures cursor <= ranges[i].stream && ranges[i].stream + ranges[i].bytes <= end && ranges[i].bytes > 0
    decreases ranges
  {
    TilesForward(ranges, cursor, end);
    if i > 0 {
      TilesAbove(ranges[1..], cursor + ranges[0].bytes, end, i - 1);
    }
  }

  lemma {:induction false} TilesForward(ranges: seq<Range>, cursor: nat, end: nat)
    requires Tiles(ranges, cursor, end)
    ensures cursor <= end
    ensures ranges != [] ==> ranges[0].stream + ranges[0].bytes <= end
  {
    if ranges != [] {
      TilesForward(ranges[1..], cursor + ranges[0].bytes, end);
    }
  }

  lemma FaithfulTail(ranges: seq<Range>, runs: seq<Run>, cs: nat, cursor: nat, end: nat)
    requires runs != [] && cursor >= Span(runs[0].vcn + runs[0].length, cs)
    requires Tiles(ranges, cursor, end) && AllFaithful(ranges, runs[1..], cs)
    ensures AllFaithful(ranges, runs, cs)
  {
    hide Locate;
    forall i | 0 <= i < |ranges|
      ensures Faithful(ranges[i], runs, cs)
    {
      TilesAbove(ranges, cursor, end, i);
      assert Faithful(ranges[i], runs[1..], cs);
      forall x | ranges[i].stream <= x < ranges[i].stream + ranges[i].bytes
        ensures Locate(runs, cs, x) == Locate(runs[1..], cs, x)
      {
        LocateTail(runs, cs, x);
      }
    }
  }

  /** The ranges tile the request in order, with the reference map's offsets. */
  lemma {:induction false} RangesMeaning(runs: seq<Run>, vcn: nat, cs: nat, cursor: nat, end: nat)
    requires Contiguous(runs, vcn) && cursor < end && RangesFrom(runs, cs, cursor, end).Ok?
    ensures var ranges := RangesFrom(runs, cs, cursor, end).value;
            Tiles(ranges, cursor, end) && AllFaithful(ranges, runs, cs)
  {
    hide Span;
    var run := runs[0];
    var runStart, runEnd := Span(run.vcn, cs), Span(run.vcn + run.length, cs);
    var ranges := RangesFrom(runs, cs, cursor, end).value;
    if cursor >= runEnd {
      RangesMeaning(runs[1..], vcn + run.length, cs, cursor, end);
      FaithfulTail(ranges, runs, cs, cursor, end);
    } else {
      var stop := if end < runEnd then end else runEnd;
      assert Faithful(ranges[0], runs, cs);
      if stop < end {
        RangesMeaning(runs[1..], vcn + run.length, cs, stop, end);
        FaithfulTail(ranges[1..], runs, cs, stop, end);
        assert ranges == [ranges[0]] + ranges[1..];
        assert forall i :: 1 <= i < |ranges| ==> ranges[i] == ranges[1..][i - 1];
      }
    }
  }

  // ---------- reading ----------

  /** The bytes of one stretch of a run: zeros for a hole, else the device. */
  function Stretch(image: Bytes, run: Run, cs: nat, cursor: nat, take: nat): (r: Result<Bytes>)
    requires Span(run.vcn, cs) <= cursor
    ensures r.Ok? ==> |r.value| == take
  {
    if run.lcn.None? then Ok(Zeros(take))
    else
      var physical := Span(run.lcn.value, cs) + (cursor - Span(run.vcn, cs));
      if physical + take > |image| then Err else Ok(image[physical..physical + take])
  }

  /** The loop of read_stream over the remaining runs. */
  function ReadFrom(image: Bytes, runs: seq<Run>, cs: nat, cursor: nat, end: nat): (r: Result<Bytes>)
    ensures r.Ok? ==> cursor < end && |r.value| == end - cursor
  {
    if runs == [] then Err
    else
      var run := runs[0];
      var runStart, runEnd := Span(run.vcn, cs), Span(run.vcn + run.length, cs);
      if cursor >= runEnd then ReadFrom(image, runs[1..], cs, cursor, end)
      else if cursor < runStart || end <= cursor then Err
      else
        var stop := if end < runEnd then end else runEnd;
        match Stretch(image, run, cs, cursor, stop - cursor)
        case Err => Err
        case Ok(part) =>
          if stop == end then Ok(part)
          else
            match ReadFrom(image, runs[1..], cs, stop, end)
            case Err => Err
            case Ok(more) => Ok(part + more)
  }

  function WithBytes(result: Bytes, r: Result<Bytes>): Result<Bytes> {
    if r.Err? then Err else Ok(result + r.value)
  }

  lemma ReadTurn(image: Bytes, runs: seq<Run>, i: nat, cs: nat, cursor: nat, end: nat, result: Bytes)
    requires i < |runs|
    ensures var all := WithBytes(result, ReadFrom(image, runs[i..], cs, cursor, end));
            var run := runs[i];
            var runStart, runEnd := Span(run.vcn, cs), Span(run.vcn + run.length, cs);
            if cursor >= runEnd then all == WithBytes(result, ReadFrom(image, runs[i + 1..], cs, cursor, end))
            else if cursor < runStart || end <= cursor then all == Err
            else
              var stop := if end < runEnd then end else runEnd;
              var part := Stretch(image, run, cs, cursor, stop - cursor);
              if part.Err? then all == Err
              else if stop == end then all == Ok(result + part.value)
              else all == WithBytes(result + part.value, ReadFrom(image, runs[i + 1..], cs, stop, end))
  {
    hide Span, Stretch;
    var run, tail := runs[i], runs[i..];
    assert tail[0] == run && tail[1..] == runs[i + 1..];
    var runStart, runEnd := Span(run.vcn, cs), Span(run.vcn + run.length, cs);
    if runStart <= cursor < runEnd && cursor < end {
      var stop := if end < runEnd then end else runEnd;
      var part := Stretch(image, run, cs, cursor, stop - cursor);
      if part.Ok? && stop != end {
        var more := ReadFrom(image, runs[i + 1..], cs, stop, end);
        if more.Ok? {
          assert result + (part.value + more.value) == result + part.value + more.value;
        }
      }
    }
  }

  lemma NoBytes(r: Result<Bytes>)
    ensures WithBytes([], r) == r
  {
    if r.Ok? {
      assert [] + r.value == r.value;
    }
  }

  /** read_stream of the validator: a request of no bytes always fails. */
  method ReadStream(image: Bytes, runs: seq<Run>, cs: nat, offset: nat, length: nat) returns (r: Result<Bytes>)
    ensures r == ReadFrom(image, runs, cs, offset, offset + length)
  {
    hide ReadFrom, Stretch, Span, WithBytes;
    var result: Bytes := [];
    var cursor: nat, end: nat := offset, offset + length;
    assert runs[0..] == runs;
    NoBytes(ReadFrom(image, runs, cs, offset, end));
    for i := 0 to |runs|
      invariant ReadFrom(image, runs, cs, offset, end) == WithBytes(result, ReadFrom(image, runs[i..], cs, cursor, end))
    {
      var run := runs[i];
      var runStart, runEnd := Span(run.vcn, cs), Span(run.vcn + run.length, cs);
      ReadTurn(image, runs, i, cs, cursor, end, result);
      if cursor >= runEnd { continue; }
      if cursor < runStart { return Err; }
      var take: int := (if end < runEnd then end else runEnd) - cursor;
      if take <= 0 { return Err; }
      var part := Stretch(image, run, cs, cursor, take);
      if part.Err? { return Err; }
      result := result + part.value;
      cursor := cursor + take;
      if cursor == end { return Ok(result); }
    }
    NothingLeft(image, runs[|runs|..], cs, cursor, end, result);
    r := Err;
  }

  lemma NothingLeft(image: Bytes, runs: seq<Run>, cs: nat, cursor: nat, end: nat, result: Bytes)
    requires runs == []
    ensures WithBytes(result, ReadFrom(image, runs, cs, cursor, end)) == Err
  {
  }

  /** A byte a read can return: inside the runs and, if mapped, on the device. */
  predicate Readable(image: Bytes, p: Place) {
    p.Hole? || (p.At? && p.device < |image|)
  }

  function ByteAt(image: Bytes, p: Place): byte
    requires Readable(image, p)
  {
    if p.Hole? then 0 else image[p.device]
  }

  ghost predicate AllReadable(image: Bytes, runs: seq<Run>, cs: nat, cursor: nat, end: nat) {
    forall x :: cursor <= x < end ==> Readable(image, Locate(runs, cs, x))
  }

  lemma ReadableTail(image: Bytes, runs: seq<Run>, cs: nat, lo: nat, hi: nat)
    requires runs != [] && lo >= Span(runs[0].vcn + runs[0].length, cs)
    ensures AllReadable(image, runs, cs, lo, hi) <==> AllReadable(image, runs[1..], cs, lo, hi)
  {
    hide Locate;
    forall x: nat {:trigger Locate(runs, cs, x)} {:trigger Locate(runs[1..], cs, x)} | lo <= x < hi
      ensures Locate(runs, cs, x) == Locate(runs[1..], cs, x)
    {
      LocateTail(runs, cs, x);
    }
  }

  /** One stretch of a run succeeds exactly when its bytes are readable. */
  lemma StretchMeaning(image: Bytes, runs: seq<Run>, cs: nat, cursor: nat, stop: nat)
    requires runs != [] && Span(runs[0].vcn, cs) <= cursor < stop <= Span(runs[0].vcn + runs[0].length, cs)
    ensures var part := Stretch(image, runs[0], cs, cursor, stop - cursor);
            && (part.Ok? <==> AllReadable(image, runs, cs, cursor, stop))
            && (part.Ok? ==> forall x :: cursor <= x < stop ==>
                Readable(image, Locate(runs, cs, x)) && part.value[x - cursor] == ByteAt(image, Locate(runs, cs, x)))
  {
    hide Span;
    var last := Locate(runs, cs, stop - 1);
    assert last.At? ==> last.device + 1 == Span(runs[0].lcn.value, cs) + (stop - Span(runs[0].vcn, cs));
  }

  /** read_stream succeeds exactly when every byte asked for is readable, and then
      returns byte for byte what the reference map says. */
  lemma {:induction false} ReadMeaning(image: Bytes, runs: seq<Run>, vcn: nat, cs: nat, cursor: nat, end: nat)
    requires Contiguous(runs, vcn) && cursor < end
    ensures var r := ReadFrom(image, runs, cs, cursor, end);
            && (r.Ok? <==> AllReadable(image, runs, cs, cursor, end))
            && (r.Ok? ==> forall x :: cursor <= x < end ==>
                Readable(image, Locate(runs, cs, x)) && r.value[x - cursor] == ByteAt(image, Locate(runs, cs, x)))
  {
    hide Span, Stretch, Locate;
    if runs == [] {
      LocateNowhere(runs, cs, cursor);
    } else {
      var run := runs[0];
      var runStart, runEnd := Span(run.vcn, cs), Span(run.vcn + run.length, cs);
      if cursor >= runEnd {
        ReadMeaning(image, runs[1..], vcn + run.length, cs, cursor, end);
        ReadableTail(image, runs, cs, cursor, end);
        SameTail(runs, cs, cursor, end);
      } else if cursor < runStart {
        LocateBelow(runs, vcn, cs, cursor);
      } else {
        var stop := if end < runEnd then end else runEnd;
        StretchMeaning(image, runs, cs, cursor, stop);
        if stop < end {
          ReadMeaning(image, runs[1..], vcn + run.length, cs, stop, end);
          ReadableTail(image, runs, cs, stop, end);
          SameTail(runs, cs, stop, end);
          assert AllReadable(image, runs, cs, cursor, end) <==>
              AllReadable(image, runs, cs, cursor, stop) && AllReadable(image, runs, cs, stop, end);
        }
      }
    }
  }

  lemma LocateNowhere(runs: seq<Run>, cs: nat, x: nat)
    requires runs == []
    ensures Locate(runs, cs, x) == Outside
  {
  }

  lemma SameTail(runs: seq<Run>, cs: nat, lo: nat, hi: nat)
    requires runs != [] && lo >= Span(runs[0].vcn + runs[0].length, cs)
    ensures forall x :: lo <= x < hi ==> Locate(runs, cs, x) == Locate(runs[1..], cs, x)
  {
    hide Locate;
    forall x: nat | lo <= x < hi
      ensures Locate(runs, cs, x) == Locate(runs[1..], cs, x)
    {
      LocateTail(runs, cs, x);
    }
  }

  // ---------- writing ----------

  /** Every range lies on the device. */
  predicate OnDevice(ranges: seq<Range>, size: nat) {
    forall i :: 0 <= i < |ranges| ==> ranges[i].device + ranges[i].bytes <= size
  }

  /** The device after a payload is written range by range. */
  function WriteRanges(image: Bytes, ranges: seq<Range>, payload: Bytes, cursor: nat): (r: Bytes)
    requires OnDevice(ranges, |image|) && Tiles(ranges, cursor, cursor + |payload|)
    ensures |r| == |image|
    decreases ranges
  {
    if ranges == [] then image
    else
      TilesForward(ranges, cursor, cursor + |payload|);
      var n := ranges[0].bytes;
      WriteRanges(Put(image, ranges[0].device, payload[..n]), ranges[1..], payload[n..], cursor + n)
  }

  /** Ranges that share no device byte. */
  predicate Apart(ranges: seq<Range>) {
    forall i, j :: 0 <= i < j < |ranges| ==>
      ranges[i].device + ranges[i].bytes <= ranges[j].device || ranges[j].device + ranges[j].bytes <= ranges[i].device
  }

  predicate Holds(range: Range, y: nat) {
    range.device <= y < range.device + range.bytes
  }

  lemma {:induction false} WriteKeeps(image: Bytes, ranges: seq<Range>, payload: Bytes, cursor: nat, y: nat)
    requires OnDevice(ranges, |image|) && Tiles(ranges, cursor, cursor + |payload|) && y < |image|
    requires forall i :: 0 <= i < |ranges| ==> !Holds(ranges[i], y)
    ensures WriteRanges(image, ranges, payload, cursor)[y] == image[y]
    decreases ranges
  {
    if ranges != [] {
      TilesForward(ranges, cursor, cursor + |payload|);
      var n := ranges[0].bytes;
      assert !Holds(ranges[0], y);
      WriteKeeps(Put(image, ranges[0].device, payload[..n]), ranges[1..], payload[n..], cursor + n, y);
    }
  }

  lemma {:induction false} WritePlaces(image: Bytes, ranges: seq<Range>, payload: Bytes, cursor: nat, i: nat, k: nat)
    requires OnDevice(ranges, |image|) && Tiles(ranges, cursor, cursor + |payload|) && Apart(ranges)
    requires i < |ranges| && k < ranges[i].bytes
    ensures cursor <= ranges[i].stream && ranges[i].stream + k < cursor + |payload|
    ensures WriteRanges(image, ranges, payload, cursor)[ranges[i].device + k] == payload[ranges[i].stream + k - cursor]
    decreases ranges
  {
    TilesAbove(ranges, cursor, cursor + |payload|, i);
    TilesForward(ranges, cursor, cursor + |payload|);
    var n := ranges[0].bytes;
    var next := Put(image, ranges[0].device, payload[..n]);
    assert forall a :: 0 <= a < |ranges[1..]| ==> ranges[1..][a] == ranges[a + 1];
    if i == 0 {
      WriteKeeps(next, ranges[1..], payload[n..], cursor + n, ranges[0].device + k);
    } else {
      WritePlaces(next, ranges[1..], payload[n..], cursor + n, i - 1, k);
    }
  }

  /** No two stream bytes share a device byte. */
  ghost predicate Injective(runs: seq<Run>, cs: nat) {
    forall x, y :: 0 <= x < y && Locate(runs, cs, x).At? && Locate(runs, cs, y).At? ==>
      Locate(runs, cs, x) != Locate(runs, cs, y)
  }

  lemma {:induction false} TilesOrdered(ranges: seq<Range>, cursor: nat, end: nat, i: nat, j: nat)
    requires Tiles(ranges, cursor, end) && i < j < |ranges|
    ensures ranges[i].stream + ranges[i].bytes <= ranges[j].stream
    decreases ranges
  {
    if i == 0 {
      TilesAbove(ranges[1..], cursor + ranges[0].bytes, end, j - 1);
    } else {
      TilesOrdered(ranges[1..], cursor + ranges[0].bytes, end, i - 1, j - 1);
    }
  }

  lemma MeetingRanges(a: Range, b: Range, runs: seq<Run>, cs: nat)
    requires Faithful(a, runs, cs) && Faithful(b, runs, cs) && a.stream + a.bytes <= b.stream
    requires a.bytes > 0 && b.bytes > 0 && a.device < b.device + b.bytes && b.device < a.device + a.bytes
    ensures !Injective(runs, cs)
  {
    hide Locate;
    var d := if a.device < b.device then b.device else a.device;
    var x, y := a.stream + (d - a.device), b.stream + (d - b.device);
    assert Locate(runs, cs, x) == At(d) && Locate(runs, cs, y) == At(d);
    assert x < y;
  }

  /** Faithful ranges of an injective map are apart. */
  lemma InjectiveApart(ranges: seq<Range>, runs: seq<Run>, cs: nat, cursor: nat, end: nat)
    requires Tiles(ranges, cursor, end) && AllFaithful(ranges, runs, cs) && Injective(runs, cs)
    ensures Apart(ranges)
  {
    hide Locate, Tiles;
    forall i, j | 0 <= i < j < |ranges|
      ensures ranges[i].device + ranges[i].bytes <= ranges[j].device
          || ranges[j].device + ranges[j].bytes <= ranges[i].device
    {
      var a, b := ranges[i], ranges[j];
      TilesOrdered(ranges, cursor, end, i, j);
      TilesAbove(ranges, cursor, end, i);
      TilesAbove(ranges, cursor, end, j);
      if a.device < b.device + b.bytes && b.device < a.device + a.bytes {
        MeetingRanges(a, b, runs, cs);
      }
    }
  }

  /** Some byte of the stream interval is stored at device byte y. */
  ghost predicate Touches(runs: seq<Run>, cs: nat, cursor: nat, end: nat, y: nat) {
    exists x :: cursor <= x < end && Locate(runs, cs, x) == At(y)
  }

  /** The index of the range that covers stream offset x. */
  lemma {:induction false} CoveringRange(ranges: seq<Range>, cursor: nat, end: nat, x: nat) returns (i: nat)
    requires Tiles(ranges, cursor, end) && cursor <= x < end
    ensures i < |ranges| && ranges[i].stream <= x < ranges[i].stream + ranges[i].bytes
    decreases ranges
  {
    if x < cursor + ranges[0].bytes {
      i := 0;
    } else {
      i := CoveringRange(ranges[1..], cursor + ranges[0].bytes, end, x);
      i := i + 1;
    }
  }

  /** What write_stream_exact leaves on the device: the payload byte for byte where
      the reference map puts it, every other byte as it was. */
  ghost predicate Written(image: Bytes, result: Bytes, runs: seq<Run>, cs: nat, offset: nat, payload: Bytes) {
    && |result| == |image|
    && (forall x :: offset <= x < offset + |payload| ==>
        var p := Locate(runs, cs, x);
        p.At? && p.device < |result| && result[p.device] == payload[x - offset])
    && (forall y :: 0 <= y < |image| && !Touches(runs, cs, offset, offset + |payload|, y) ==> result[y] == image[y])
  }

  lemma HeldIsTouched(range: Range, runs: seq<Run>, cs: nat, cursor: nat, end: nat, y: nat)
    requires Faithful(range, runs, cs) && Holds(range, y)
    requires cursor <= range.stream && range.stream + range.bytes <= end
    ensures Touches(runs, cs, cursor, end, y)
  {
    hide Locate;
    assert Locate(runs, cs, range.stream + (y - range.device)) == At(y);
  }

  lemma WriteMeaning(image: Bytes, ranges: seq<Range>, runs: seq<Run>, cs: nat, offset: nat, payload: Bytes)
    requires Tiles(ranges, offset, offset + |payload|) && AllFaithful(ranges, runs, cs)
    requires OnDevice(ranges, |image|) && Injective(runs, cs)
    ensures Written(image, WriteRanges(image, ranges, payload, offset), runs, cs, offset, payload)
  {
    hide Locate, Tiles, WriteRanges;
    var result, end := WriteRanges(image, ranges, payload, offset), offset + |payload|;
    InjectiveApart(ranges, runs, cs, offset, end);
    forall x | offset <= x < end
      ensures var p := Locate(runs, cs, x); p.At? && p.device < |result| && result[p.device] == payload[x - offset]
    {
      var i := CoveringRange(ranges, offset, end, x);
      assert Faithful(ranges[i], runs, cs);
      WritePlaces(image, ranges, payload, offset, i, x - ranges[i].stream);
    }
    forall y | 0 <= y < |image| && !Touches(runs, cs, offset, end, y)
      ensures result[y] == image[y]
    {
      forall i | 0 <= i < |ranges|
        ensures !Holds(ranges[i], y)
      {
        TilesAbove(ranges, offset, end, i);
        if Holds(ranges[i], y) {
          HeldIsTouched(ranges[i], runs, cs, offset, end, y);
        }
      }
      WriteKeeps(image, ranges, payload, offset, y);
    }
  }

  /** Reading back a written interval returns the payload. */
  lemma WriteThenRead(image: Bytes, result: Bytes, runs: seq<Run>, vcn: nat, cs: nat, offset: nat, payload: Bytes)
    requires Contiguous(runs, vcn) && |payload| > 0 && Written(image, result, runs, cs, offset, payload)
    ensures ReadFrom(result, runs, cs, offset, offset + |payload|) == Ok(payload)
  {
    hide Locate, ReadFrom;
    ReadMeaning(result, runs, vcn, cs, offset, offset + |payload|);
    var r := ReadFrom(result, runs, cs, offset, offset + |payload|);
    assert AllReadable(result, runs, cs, offset, offset + |payload|);
    forall k | 0 <= k < |payload|
      ensures r.value[k] == payload[k]
    {
      assert r.value[(offset + k) - offset] == ByteAt(result, Locate(runs, cs, offset + k));
    }
    assert r.value == payload;
  }

  /** Reading an interval none of whose device bytes changed. */
  lemma ReadFrame(image: Bytes, result: Bytes, runs: seq<Run>, vcn: nat, cs: nat, cursor: nat, end: nat)
    requires Contiguous(runs, vcn) && cursor < end && |result| == |image|
    requires forall x :: cursor <= x < end ==>
                Locate(runs, cs, x).At? && Locate(runs, cs, x).device < |image| ==>
                result[Locate(runs, cs, x).device] == image[Locate(runs, cs, x).device]
    ensures ReadFrom(result, runs, cs, cursor, end) == ReadFrom(image, runs, cs, cursor, end)
  {
    hide Locate, ReadFrom;
    ReadMeaning(result, runs, vcn, cs, cursor, end);
    ReadMeaning(image, runs, vcn, cs, cursor, end);
    var a, b := ReadFrom(result, runs, cs, cursor, end), ReadFrom(image, runs, cs, cursor, end);
    assert AllReadable(image, runs, cs, cursor, end) <==> AllReadable(result, runs, cs, cursor, end);
    if a.Ok? {
      forall k | 0 <= k < end - cursor
        ensures a.value[k] == b.value[k]
      {
        assert a.value[(cursor + k) - cursor] == ByteAt(result, Locate(runs, cs, cursor + k));
        assert b.value[(cursor + k) - cursor] == ByteAt(image, Locate(runs, cs, cursor + k));
      }
      assert a.value == b.value;
    }
  }

  // ---------- disjoint extents ----------

  /** No two mapped runs share a cluster. */
  predicate ExtentsApart(runs: seq<Run>) {
    forall i, j :: 0 <= i < j < |runs| && runs[i].lcn.Some? && runs[j].lcn.Some? ==>
      runs[i].lcn.value + runs[i].length <= runs[j].lcn.value || runs[j].lcn.value + runs[j].length <= runs[i].lcn.value
  }

  /** The run that holds a mapped byte. */
  lemma {:induction false} LocatingRun(runs: seq<Run>, cs: nat, x: nat) returns (i: nat)
    requires Locate(runs, cs, x).At?
    ensures i < |runs| && runs[i].lcn.Some?
    ensures Span(runs[i].vcn, cs) <= x < Span(runs[i].vcn + runs[i].length, cs)
    ensures Locate(runs, cs, x) == At(Span(runs[i].lcn.value, cs) + (x - Span(runs[i].vcn, cs)))
    ensures Span(runs[i].lcn.value, cs) <= Locate(runs, cs, x).device < Span(runs[i].lcn.value + runs[i].length, cs)
  {
    var run := runs[0];
    if Span(run.vcn, cs) <= x < Span(run.vcn + run.length, cs) {
      i := 0;
      SpanAdd(run.vcn, run.length, cs);
      SpanAdd(run.lcn.value, run.length, cs);
    } else {
      i := LocatingRun(runs[1..], cs, x);
      i := i + 1;
    }
  }

  /** Disjoint extents make the map injective. */
  lemma ExtentsInjective(runs: seq<Run>, cs: nat)
    requires ExtentsApart(runs)
    ensures Injective(runs, cs)
  {
    hide Locate, Span;
    forall x, y | 0 <= x < y && Locate(runs, cs, x).At? && Locate(runs, cs, y).At?
      ensures Locate(runs, cs, x) != Locate(runs, cs, y)
    {
      var i := LocatingRun(runs, cs, x);
      var j := LocatingRun(runs, cs, y);
      if i != j {
        var a, b := if i < j then runs[i] else runs[j], if i < j then runs[j] else runs[i];
        if a.lcn.value + a.length <= b.lcn.value {
          SpanMono(a.lcn.value + a.length, b.lcn.value, cs);
        } else {
          SpanMono(b.lcn.value + b.length, a.lcn.value, cs);
        }
      }
    }
  }

  function SumLengths(runs: seq<Run>): nat {
    if runs == [] then 0 else runs[0].length + SumLengths(runs[1..])
  }

  /** A contiguous list covers exactly the bytes of its clusters. */
  lemma {:induction false} LocateCovered(runs: seq<Run>, vcn: nat, cs: nat, x: nat)
    requires Contiguous(runs, vcn) && Span(vcn, cs) <= x
    ensures Locate(runs, cs, x) != Outside <==> x < Span(vcn + SumLengths(runs), cs)
  {
    if runs != [] {
      var next := vcn + runs[0].length;
      if x >= Span(next, cs) {
        LocateCovered(runs[1..], next, cs, x);
        assert next + SumLengths(runs[1..]) == vcn + SumLengths(runs);
      } else {
        SpanMono(next, vcn + SumLengths(runs), cs);
      }
    }
  }
}
