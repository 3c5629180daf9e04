/** What a reported change of ensure_fragmented_data says of any image whatever, sound or not:
    the tests it made before the move and the ones it made after. */
module FragmentReport {
  import opened Bytes
  import Arithmetic
  import opened Runlist
  import opened FixtureRecords
  import opened FixtureImage
  import opened Bitmap
  import opened Volumes
  import opened Fragmentation

  /** The record's DATA reads as `x`, and its bytes as `content`. */
  predicate Reads(g: Geometry, image: Bytes, inode: nat, x: Attr, content: Bytes)
    requires Sane(g)
  {
    && Record(g, image, inode).Ok? && DataOf(Record(g, image, inode).value) == Ok(x)
    && StreamBytes(g, image, x, 0, x.body.dataSize) == Ok(content)
  }

  /** One run of two clusters or more, unflagged. */
  predicate OneRun(x: Attr, run: Run) {
    x.body.nonresident && x.body.flags == 0 && x.body.runs == [run] && run.lcn.Some? && run.length >= 2
  }

  /** `to` is clear in the bitmap's bytes, and no clear cluster from 24 on is nearer to `from`,
      or as near and lower. */
  predicate NearestClear(bits: Bytes, total: nat, from: nat, to: nat) {
    && 24 <= to < total <= 8 * |bits| && !IsSet(bits, to)
    && forall d: nat :: 24 <= d < total && !IsSet(bits, d) ==>
         var near, far := if to < from then from - to else to - from, if d < from then from - d else d - from;
         near < far || (near == far && to <= d)
  }

  lemma NearestIs(bits: Bytes, total: nat, from: nat, to: nat)
    requires total <= 8 * |bits|
    ensures Nearest(bits, from, total) == Some(to) ==> NearestClear(bits, total, from, to)
  {
    hide Test, Nearest;
    if Nearest(bits, from, total) == Some(to) {
      assert IsNearest(bits, from, total, to);
      forall d: nat | 24 <= d < total && !IsSet(bits, d)
        ensures Distance(to, from) < Distance(d, from) || (Distance(to, from) == Distance(d, from) && to <= d)
      {
        assert Free(bits, d);
      }
    }
  }

  /** Before: the moved cluster is marked in the bitmap record 6 holds, the target clear. */
  predicate Chosen(g: Geometry, image: Bytes, bitmap: Attr, bits: Bytes, from: nat, to: nat)
    requires Sane(g)
  {
    && Record(g, image, 6).Ok? && DataOf(Record(g, image, 6).value) == Ok(bitmap)
    && StreamBytes(g, image, bitmap, 0, (g.totalClusters + 7) / 8) == Ok(bits)
    && BitOf(g, image, bitmap, from) == Ok(true) && NearestClear(bits, g.totalClusters, from, to)
  }

  lemma TargetChosen(g: Geometry, image: Bytes, run: Run) returns (bits: Bytes)
    requires Sane(g) && run.lcn.Some? && run.length >= 2 && Targeted(g, image, run).Ok?
    ensures var t := Targeted(g, image, run).value;
            t.from == run.lcn.value + run.length - 1 && Chosen(g, image, t.bitmap, bits, t.from, t.to)
  {
    hide Record, FindFrom, StreamBytes, BitOf, Nearest, NearestClear;
    var t := Targeted(g, image, run).value;
    bits := StreamBytes(g, image, t.bitmap, 0, (g.totalClusters + 7) / 8).value;
    assert |bits| == (g.totalClusters + 7) / 8 by { ReadLength(g, image, t.bitmap, 0, (g.totalClusters + 7) / 8); }
    NearestIs(bits, g.totalClusters, t.from, t.to);
  }

  lemma {:induction false} SegmentsLength(image: Bytes, runs: seq<Run>, cs: nat, cursor: nat, n: nat)
    requires SegmentsFrom(runs, cs, cursor, n).Ok? && Gathered(image, SegmentsFrom(runs, cs, cursor, n).value).Ok?
    ensures |Gathered(image, SegmentsFrom(runs, cs, cursor, n).value).value| == n
  {
    hide Arithmetic.Span;
    var run := runs[0];
    var runEnd := Arithmetic.Span(run.vcn + run.length, cs);
    if cursor >= runEnd {
      SegmentsLength(image, runs[1..], cs, cursor, n);
    } else {
      var amount := if n < runEnd - cursor then n else runEnd - cursor;
      var segment := Segment(DiskOf(run, cs, cursor), amount);
      if amount == n {
        assert [segment][1..] == [];
      } else {
        var more := SegmentsFrom(runs[1..], cs, cursor + amount, n - amount).value;
        assert ([segment] + more)[0] == segment && ([segment] + more)[1..] == more;
        SegmentsLength(image, runs[1..], cs, cursor + amount, n - amount);
      }
    }
  }

  lemma ReadLength(g: Geometry, image: Bytes, a: Attr, offset: nat, n: nat)
    requires StreamBytes(g, image, a, offset, n).Ok?
    ensures |StreamBytes(g, image, a, offset, n).value| == n
  {
    hide SegmentsFrom, Gathered;
    SegmentsLength(image, a.body.runs, g.clusterSize, offset, n);
  }

  /** A reported change, on any image: one run before, its last cluster marked and the target
      the nearest clear one; afterwards the record reads back with the two runs and the same
      content, the old cluster clear and the new one marked. */
  lemma ChangeMeans(g: Geometry, image: Bytes, inode: nat)
    returns (x: Attr, run: Run, bitmap: Attr, bits: Bytes, y: Attr)
    requires Sane(g) && Fragment(g, image, inode).Ok? && Fragment(g, image, inode).value.1.changed
    ensures var result, out := Fragment(g, image, inode).value.0, Fragment(g, image, inode).value.1;
            && Reads(g, image, inode, x, out.content) && OneRun(x, run)
            && out.releasedLcn == run.lcn.value + run.length - 1
            && Chosen(g, image, bitmap, bits, out.releasedLcn, out.newLcn)
            && out.runs == [Run(run.vcn, run.length - 1, run.lcn), Run(run.vcn + run.length - 1, 1, Some(out.newLcn))]
            && Reads(g, result, inode, y, out.content) && y.body.runs == out.runs
            && BitOf(g, result, bitmap, out.releasedLcn) == Ok(false)
            && BitOf(g, result, bitmap, out.newLcn) == Ok(true)
  {
    hide Record, FindFrom, StreamBytes, BitOf, Targeted, Rewritten, Relocated, Stored, RoundTrips, Chosen;
    var p := Prepared(g, image, inode).value;
    x := p.data;
    run := x.body.runs[0];
    var t := Targeted(g, image, run).value;
    bitmap := t.bitmap;
    bits := TargetChosen(g, image, run);
    var result := Fragment(g, image, inode).value.0;
    y := DataOf(Record(g, result, inode).value).value;
  }

  /** No reported change, on any image: nothing written, and the runs and content are those read. */
  lemma NoChangeMeans(g: Geometry, image: Bytes, inode: nat) returns (x: Attr)
    requires Sane(g) && Fragment(g, image, inode).Ok? && !Fragment(g, image, inode).value.1.changed
    ensures var result, out := Fragment(g, image, inode).value.0, Fragment(g, image, inode).value.1;
            && result == image && Reads(g, image, inode, x, out.content) && out.runs == x.body.runs
            && x.body.nonresident && x.body.flags == 0 && 2 <= |out.runs|
            && forall i :: 0 <= i < |out.runs| ==> out.runs[i].lcn.Some?
  {
    hide Record, FindFrom, StreamBytes, Targeted, Rewritten, Relocated, Stored, RoundTrips, Verified;
    x := Prepared(g, image, inode).value.data;
  }
}
