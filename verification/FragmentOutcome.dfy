/** When ensure_fragmented_data succeeds on a consistent volume, and with what answer, stated on
    the view alone: the attribute, the clusters nobody owns, and the room in the record. */
module FragmentOutcome {
  import opened Bytes
  import opened Arithmetic
  import opened Runlist
  import opened Streams
  import opened FixtureRecords
  import opened FixtureImage
  import opened Bitmap
  import opened Volumes
  import opened Fragmentation
  import opened VolumeKept
  import opened MoveCompletes
  import PairReplacement
  import FR = FileRecords

  // ---------- the file ----------

  /** Mapped clusters throughout, and no flag set. */
  predicate Plain(x: Attr) {
    x.body.nonresident && x.body.flags == 0 && forall i :: 0 <= i < |x.body.runs| ==> x.body.runs[i].lcn.Some?
  }

  /** Every data byte has a place, and the first byte even of an empty stream. */
  ghost predicate Backed(g: Geometry, x: Attr) {
    forall y: nat :: y < x.body.dataSize || y == 0 ==> Locate(x.body.runs, g.clusterSize, y).At?
  }

  lemma {:induction false} NeverHole(runs: seq<Run>, cs: nat, y: nat)
    requires Mapped(runs)
    ensures !Locate(runs, cs, y).Hole?
  {
    hide Span;
    if runs != [] {
      assert runs[0].lcn.Some?;
      NeverHole(runs[1..], cs, y);
    }
  }

  /** Places of a sound view lie on the image. */
  lemma OnImage(g: Geometry, image: Bytes, v: View, n: nat, k: nat, y: nat)
    requires Laid(g, image, v) && n in v && k < |v[n]| && Locate(v[n][k].body.runs, g.clusterSize, y).At?
    ensures Locate(v[n][k].body.runs, g.clusterSize, y).device < |image|
  {
    hide Locate, Span, IsView, Disjoint, RecordOffset;
    var i := PlaceHeld(v, n, k, g.clusterSize, y);
    var d := Locate(v[n][k].body.runs, g.clusterSize, y).device;
    ClusterOf(d, g.clusterSize);
    ClusterFits(g, image, d / g.clusterSize);
  }

  /** The content can be read exactly when it is backed. */
  lemma ContentReads(g: Geometry, image: Bytes, v: View, inode: nat)
    requires Laid(g, image, v) && HasData(v, inode) && Plain(Data(v, inode))
    ensures var x := Data(v, inode); StreamBytes(g, image, x, 0, x.body.dataSize).Ok? <==> Backed(g, x)
  {
    hide Locate, SegmentsFrom, Gathered, ReadFrom, IsView, Disjoint, RecordOffset, Contiguous;
    var x, cs := Data(v, inode), g.clusterSize;
    var n := x.body.dataSize;
    assert ContiguousAttr(v[inode][DataAt(v, inode)]);
    forall y: nat ensures Readable(image, Locate(x.body.runs, cs, y)) <==> Locate(x.body.runs, cs, y).At? {
      NeverHole(x.body.runs, cs, y);
      if Locate(x.body.runs, cs, y).At? { OnImage(g, image, v, inode, DataAt(v, inode), y); }
    }
    if n == 0 {
      EmptyRead(g, image, x);
      NeverHole(x.body.runs, cs, 0);
    } else {
      GatheredIsRead(image, x.body.runs, cs, 0, n);
      ReadMeaning(image, x.body.runs, x.body.lowestVcn, cs, 0, n);
    }
  }

  /** The first step goes through exactly on a plain, backed DATA attribute. */
  lemma PreparedIff(g: Geometry, image: Bytes, v: View, inode: nat)
    requires Laid(g, image, v) && inode in v
    ensures var p := Prepared(g, image, inode);
            && (p.Ok? <==> HasData(v, inode) && Plain(Data(v, inode)) && Backed(g, Data(v, inode)))
            && (p.Ok? ==>
                && p.value.data == Data(v, inode) && Record(g, image, inode) == Ok(p.value.record)
                && ContentIs(g, image, Data(v, inode), p.value.content))
  {
    hide Record, FindFrom, StreamBytes, IsView, Disjoint, RecordOffset, DataIndex, Backed, ContentIs, Contiguous;
    ViewData(g, image, v, inode);
    if HasData(v, inode) && Plain(Data(v, inode)) {
      ContentReads(g, image, v, inode);
      assert ContiguousAttr(v[inode][DataAt(v, inode)]);
      var x := Data(v, inode);
      if StreamBytes(g, image, x, 0, x.body.dataSize).Ok? {
        ContentRead(g, image, x, StreamBytes(g, image, x, 0, x.body.dataSize).value);
      }
    }
  }

  // ---------- the target ----------

  /** Among the clusters from 24 on that nobody owns, `to` is the nearest to `from`, and the
      lower of two as near. */
  ghost predicate NearestUnowned(v: View, total: nat, from: nat, to: nat) {
    && 24 <= to < total && !Owned(v, to)
    && forall d: nat :: 24 <= d < total && !Owned(v, d) ==>
         var near, far := if to < from then from - to else to - from, if d < from then from - d else d - from;
         near < far || (near == far && to <= d)
  }

  lemma BitmapByteRead(g: Geometry, image: Bytes, v: View, k: nat)
    requires Consistent(g, image, v) && 8 * k < g.totalClusters
    ensures var a := Data(v, FILE_BITMAP);
            a.body.nonresident && k < a.body.dataSize && Readable(image, Locate(a.body.runs, g.clusterSize, k))
  {
    hide Locate, IsView, Disjoint, RecordOffset, Contiguous, BitOf, Owned, Test;
    assert ContiguousAttr(v[FILE_BITMAP][DataAt(v, FILE_BITMAP)]);
    BitMeaning(g, image, Data(v, FILE_BITMAP), 8 * k);
    assert BitOf(g, image, Data(v, FILE_BITMAP), 8 * k) == Ok(Owned(v, 8 * k));
  }

  /** The bitmap's bytes up to the last cluster can be read, and mark what is owned. */
  lemma BitsRead(g: Geometry, image: Bytes, v: View) returns (bits: Bytes)
    requires Consistent(g, image, v) && g.totalClusters > 0
    ensures StreamBytes(g, image, Data(v, FILE_BITMAP), 0, (g.totalClusters + 7) / 8) == Ok(bits)
    ensures forall c: nat :: c < g.totalClusters ==> (Free(bits, c) <==> !Owned(v, c))
  {
    hide Locate, SegmentsFrom, Gathered, ReadFrom, IsView, Disjoint, RecordOffset, Contiguous, BitOf, Owned, Test;
    var a, cs, n := Data(v, FILE_BITMAP), g.clusterSize, (g.totalClusters + 7) / 8;
    assert ContiguousAttr(v[FILE_BITMAP][DataAt(v, FILE_BITMAP)]);
    forall k: nat | k < n ensures Readable(image, Locate(a.body.runs, cs, k)) { BitmapByteRead(g, image, v, k); }
    BitmapByteRead(g, image, v, n - 1);
    GatheredIsRead(image, a.body.runs, cs, 0, n);
    ReadMeaning(image, a.body.runs, a.body.lowestVcn, cs, 0, n);
    assert AllReadable(image, a.body.runs, cs, 0, n);
    bits := StreamBytes(g, image, a, 0, n).value;
    forall c: nat | c < g.totalClusters ensures Free(bits, c) <==> !Owned(v, c) {
      BitMeaning(g, image, a, c);
      AllRead(g, image, a, n, bits, c / 8);
      assert BitOf(g, image, a, c) == Ok(Owned(v, c));
    }
  }

  /** A target is found exactly when some cluster from 24 on has no owner; it is the nearest. */
  lemma TargetedIff(g: Geometry, image: Bytes, v: View, n: nat, t: nat)
    requires Consistent(g, image, v) && Movable(v, n, t)
    ensures var r := Targeted(g, image, v[n][t].body.runs[0]);
            && (r.Ok? <==> exists c: nat :: 24 <= c < g.totalClusters && !Owned(v, c))
            && (r.Ok? ==>
                && r.value == Target(Data(v, FILE_BITMAP), Last(v, n, t), r.value.to)
                && NearestUnowned(v, g.totalClusters, Last(v, n, t), r.value.to))
  {
    hide Record, FindFrom, StreamBytes, IsView, Disjoint, RecordOffset, DataIndex, BitOf, Nearest, Owned, Free;
    var from := Last(v, n, t);
    OwnsLast(v, n, t, g.totalClusters);
    ViewData(g, image, v, FILE_BITMAP);
    var bits := BitsRead(g, image, v);
    assert BitOf(g, image, Data(v, FILE_BITMAP), from) == Ok(true);
    var to := Nearest(bits, from, g.totalClusters);
    if to.Some? {
      assert IsNearest(bits, from, g.totalClusters, to.value);
    }
  }

  lemma OwnsLast(v: View, n: nat, t: nat, total: nat)
    requires Movable(v, n, t) && Volumes.Sound(v, total)
    ensures Owned(v, Last(v, n, t)) && Last(v, n, t) < total
  {
    assert Volumes.Holds(v, Id(n, t, 0), Last(v, n, t));
  }

  // ---------- the room in the record ----------

  function ChainEnd(chain: seq<Attr>, o: nat): nat {
    if chain == [] then o else End(chain[|chain| - 1])
  }

  /** The bounded walk ends where the chain does, if the used bytes reach past the marker. */
  lemma {:induction false} EndInChain(record: Bytes, used: nat, o: nat)
    requires used <= |record| && Chain(record, o).Ok?
    ensures var end := ChainEnd(Chain(record, o).value, o);
            o <= end && EndFrom(record, used, o) == if end + 4 <= used then Ok(end) else Err
    decreases |record| - o
  {
    hide U32, AttrAt, EndFrom, Chain;
    ChainTurn(record, o);
    EndTurn(record, used, o);
    if U32(record, o) != FR.AT_END {
      var a := AttrAt(record, o).value;
      HeaderOf(record, o);
      EndInChain(record, used, o + a.length);
    }
  }

  lemma ChainTurn(record: Bytes, o: nat)
    requires Chain(record, o).Ok?
    ensures o + 4 <= |record|
    ensures if U32(record, o) == FR.AT_END then Chain(record, o) == Ok([])
            else && AttrAt(record, o).Ok? && Chain(record, o + AttrAt(record, o).value.length).Ok?
                 && Chain(record, o).value
                    == [AttrAt(record, o).value] + Chain(record, o + AttrAt(record, o).value.length).value
  {
    hide U32, AttrAt;
  }

  lemma EndTurn(record: Bytes, used: nat, o: nat)
    requires used <= |record|
    ensures EndFrom(record, used, o)
         == if o + 4 > used then Err
            else if U32(record, o) == FR.AT_END then Ok(o)
            else if o + 8 > used || U32(record, o + 4) < 24 || o + U32(record, o + 4) > used then Err
            else EndFrom(record, used, o + U32(record, o + 4))
  {
    hide U32;
  }

  lemma HeaderOf(record: Bytes, o: nat)
    requires AttrAt(record, o).Ok?
    ensures var a := AttrAt(record, o).value; a.offset == o && a.length == U32(record, o + 4) && o + 24 <= |record|
  {
    hide BodyOf, U32;
  }

  /** `size` bytes of pairs fit the t-th attribute as it is; or it is the last, and the used
      bytes, which reach past the end marker, can grow by whole eights to hold them. */
  predicate RoomFor(record: Bytes, chain: seq<Attr>, t: nat, size: nat)
    requires t < |chain| && |record| >= 28 && chain[t].body.mapping <= chain[t].length
  {
    var room, used := chain[t].length - chain[t].body.mapping, U32(record, 24);
    || size <= room
    || (&& t == |chain| - 1 && End(chain[t]) + 4 <= used
        && used + 8 * ((size - room + 7) / 8) <= |record|)
  }

  /** The record edit succeeds exactly when the new pairs can be encoded and have room. */
  lemma RewrittenIff(record: Bytes, chain: seq<Attr>, t: nat, runs: seq<Run>)
    requires 28 <= |record| <= 65536 && 28 <= First(record) && Chain(record, First(record)) == Ok(chain)
    requires DataIndex(chain) == Some(t) && chain[t].body.nonresident
    ensures DataOf(record) == Ok(chain[t]) && chain[t].body.mapping <= chain[t].length
    ensures Rewritten(record, chain[t], runs).Ok? <==>
        var e := EncodePairs(runs, chain[t].body.lowestVcn, 0); e.Ok? && RoomFor(record, chain, t, |e.value|)
  {
    hide U32, Chain, EncodePairs, Placed, Grown, EndFrom, AttrAt, DataIndex;
    FindInChain(record, First(record));
    PairReplacement.ChainAt(record, First(record), t);
    if U32(record, 24) <= |record| {
      EndInChain(record, U32(record, 24), First(record));
    }
    LastEnds(record, First(record), t);
  }

  /** Only the last attribute ends where the chain ends. */
  lemma LastEnds(record: Bytes, o: nat, t: nat)
    requires Chain(record, o).Ok? && t < |Chain(record, o).value|
    ensures var chain := Chain(record, o).value; End(chain[t]) == ChainEnd(chain, o) <==> t == |chain| - 1
  {
    hide AttrAt, Chain, U32;
    var chain := Chain(record, o).value;
    if t < |chain| - 1 {
      PairReplacement.ChainAt(record, o, t);
      PairReplacement.ChainAt(record, o, |chain| - 1);
      LaterAfter(record, o, t, |chain| - 1);
    }
  }

  lemma {:induction false} LaterAfter(record: Bytes, o: nat, i: nat, j: nat)
    requires Chain(record, o).Ok? && i < j < |Chain(record, o).value|
    ensures End(Chain(record, o).value[i]) <= Chain(record, o).value[j].offset
    decreases i
  {
    hide AttrAt, U32;
    var a := AttrAt(record, o).value;
    var more := Chain(record, o + a.length).value;
    assert Chain(record, o).value == [a] + more;
    if i == 0 {
      PairReplacement.ChainAt(record, o + a.length, j - 1);
    } else {
      LaterAfter(record, o + a.length, i - 1, j - 1);
    }
  }

  // ---------- the outcome ----------

  /** The last cluster of the one run can go to `to`: the nearest cluster without an owner,
      room for the pairs, a mapped bit; and for the bitmap's own record both changed bytes in
      the cluster that moves. */
  ghost predicate CanMove(g: Geometry, v: View, record: Bytes, inode: nat, to: nat)
    requires HasData(v, inode) && HasData(v, FILE_BITMAP) && |record| >= 28
    requires Movable(v, inode, DataAt(v, inode)) && Data(v, inode).body.mapping <= Data(v, inode).length
  {
    var x, t := Data(v, inode), DataAt(v, inode);
    var e := EncodePairs(Split(x.body.runs[0], to), x.body.lowestVcn, 0);
    && NearestUnowned(v, g.totalClusters, Last(v, inode, t), to)
    && e.Ok? && RoomFor(record, v[inode], t, |e.value|)
    && Locate(Data(v, FILE_BITMAP).body.runs, g.clusterSize, to / 8).At?
    && (inode == FILE_BITMAP ==>
        && Span(x.body.runs[0].vcn + x.body.runs[0].length - 1, g.clusterSize) <= to / 8
        && Span(x.body.runs[0].vcn + x.body.runs[0].length - 1, g.clusterSize) <= Last(v, inode, t) / 8)
  }

  /** A file that already has several runs is left as it is, with its runs and its content. */
  lemma AlreadyFragmented(g: Geometry, image: Bytes, v: View, inode: nat) returns (content: Bytes)
    requires Laid(g, image, v) && inode in v && HasData(v, inode)
    requires Plain(Data(v, inode)) && Backed(g, Data(v, inode)) && |Data(v, inode).body.runs| >= 2
    ensures Fragment(g, image, inode) == Ok((image, Outcome(false, Data(v, inode).body.runs, content, 0, 0)))
    ensures ContentIs(g, image, Data(v, inode), content)
  {
    hide Prepared, Targeted, Moving, Backed, ContentIs, IsView, Disjoint, RecordOffset, DataIndex;
    PreparedIff(g, image, v, inode);
    content := Prepared(g, image, inode).value.content;
  }

  lemma MovableHere(v: View, inode: nat)
    requires HasData(v, inode) && Plain(Data(v, inode)) && |Data(v, inode).body.runs| == 1
    requires Data(v, inode).body.runs[0].length >= 2
    ensures Movable(v, inode, DataAt(v, inode))
  {
  }

  /** The mapping region of a live record's DATA lies inside it. */
  lemma PairsInside(g: Geometry, image: Bytes, v: View, inode: nat)
    requires Laid(g, image, v) && HasData(v, inode) && Data(v, inode).body.nonresident
    ensures Record(g, image, inode).Ok?
        && Chain(Record(g, image, inode).value, First(Record(g, image, inode).value)) == Ok(v[inode])
    ensures Data(v, inode).body.mapping <= Data(v, inode).length
  {
    hide Record, AttrAt, Chain, DataIndex, Disjoint, RecordOffset, Volumes.Sound;
    assert ChainOf(g, image, inode) == Ok(v[inode]);
    var record := Record(g, image, inode).value;
    PairReplacement.ChainAt(record, First(record), DataAt(v, inode));
  }

  /** With one run of at least two clusters the operation succeeds exactly when that run's last
      cluster can move somewhere, and the record is not the $MFT's; and then reports a change. */
  lemma OneRunMoves(g: Geometry, image: Bytes, v: View, inode: nat)
    requires Consistent(g, image, v) && HasData(v, inode) && Plain(Data(v, inode)) && Backed(g, Data(v, inode))
    requires |Data(v, inode).body.runs| == 1 && Data(v, inode).body.runs[0].length >= 2
    requires Record(g, image, inode).Ok? && ClearArray(g, Record(g, image, inode).value)
    ensures Movable(v, inode, DataAt(v, inode)) && Data(v, inode).body.mapping <= Data(v, inode).length
    ensures Fragment(g, image, inode).Ok? <==>
        inode != 0 && exists to: nat :: CanMove(g, v, Record(g, image, inode).value, inode, to)
    ensures Fragment(g, image, inode).Ok? ==>
        && Fragment(g, image, inode).value.1.changed
        && CanMove(g, v, Record(g, image, inode).value, inode, Fragment(g, image, inode).value.1.newLcn)
  {
    hide Record, RecordOffset, Prepared, Targeted, Rewritten, Backed, ContentIs, IsView, Disjoint, DataIndex, Moving,
         EncodePairs, Split, NearestUnowned, RoomFor, Locate, Span, Owned, ClearArray, Chain, Volumes.Sound, FindFrom;
    MovableHere(v, inode);
    PairsInside(g, image, v, inode);
    PreparedIff(g, image, v, inode);
    TargetedIff(g, image, v, inode, DataAt(v, inode));
    var record, run := Record(g, image, inode).value, Data(v, inode).body.runs[0];
    if Targeted(g, image, run).Ok? {
      var p, t := Prepared(g, image, inode).value, Targeted(g, image, run).value;
      FragmentMoves(g, image, inode, p, t);
      ChangeReported(g, image, v, inode, p, t);
      FirstClear(g, record);
      RewrittenIff(record, v[inode], DataAt(v, inode), Split(run, t.to));
      NearestOnce(v, g.totalClusters, t.from);
      MovesTo(g, image, inode, p, t);
      assert Passable(g, p, t) && (inode == FILE_BITMAP ==> BothInLast(g, p, t)) <==>
          CanMove(g, v, record, inode, t.to);
    } else {
      NoneNearest(v, g.totalClusters, Last(v, inode, DataAt(v, inode)));
    }
  }

  lemma FirstClear(g: Geometry, record: Bytes)
    requires ClearArray(g, record)
    ensures |record| >= 28 && 28 <= First(record)
  {
  }

  lemma NearestOnce(v: View, total: nat, from: nat)
    ensures forall a: nat, b: nat :: NearestUnowned(v, total, from, a) && NearestUnowned(v, total, from, b) ==> a == b
  {
    hide Owned;
  }

  lemma NoneNearest(v: View, total: nat, from: nat)
    requires !exists c: nat :: 24 <= c < total && !Owned(v, c)
    ensures forall to: nat :: !NearestUnowned(v, total, from, to)
  {
    hide Owned;
  }

  /** A reported move names its target. */
  lemma MovesTo(g: Geometry, image: Bytes, inode: nat, p: Prep, t: Target)
    requires Sane(g) && |p.record| == g.recordSize && DataOf(p.record) == Ok(p.data) && p.data.body.nonresident
    requires |p.data.body.runs| == 1 && p.data.body.runs[0].lcn.Some? && p.data.body.runs[0].length >= 2
    ensures Moving(g, image, inode, p, t).Ok? ==> Moving(g, image, inode, p, t).value.1.newLcn == t.to
  {
    hide Rewritten, Relocated, Stored, Verified, RoundTrips, Split;
  }

  /** The whole verdict: success exactly on a plain, backed DATA that either has several runs
      already, or has one of at least two clusters whose last can move. */
  lemma FragmentDecides(g: Geometry, image: Bytes, v: View, inode: nat)
    requires Consistent(g, image, v) && inode in v
    requires Record(g, image, inode).Ok? && ClearArray(g, Record(g, image, inode).value)
    ensures Fragment(g, image, inode).Ok? <==>
        && HasData(v, inode) && Plain(Data(v, inode)) && Backed(g, Data(v, inode))
        && (|| |Data(v, inode).body.runs| >= 2
            || (&& |Data(v, inode).body.runs| == 1 && Data(v, inode).body.runs[0].length >= 2 && inode != 0
                && Data(v, inode).body.mapping <= Data(v, inode).length
                && exists to: nat :: CanMove(g, v, Record(g, image, inode).value, inode, to)))
    ensures Fragment(g, image, inode).Ok? ==>
        (Fragment(g, image, inode).value.1.changed <==> |Data(v, inode).body.runs| == 1)
  {
    hide Record, RecordOffset, Prepared, Targeted, Moving, Backed, ContentIs, IsView, Disjoint, DataIndex, CanMove,
         ClearArray, Volumes.Sound;
    PreparedIff(g, image, v, inode);
    if Prepared(g, image, inode).Ok? {
      var runs := Data(v, inode).body.runs;
      if |runs| >= 2 {
        var content := AlreadyFragmented(g, image, v, inode);
      } else if |runs| == 1 && runs[0].length >= 2 {
        OneRunMoves(g, image, v, inode);
      }
    }
  }
}
