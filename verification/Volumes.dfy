/** Who owns which cluster: the attributes of a set of live records and the clusters their
    runs map, and what moving one cluster of one attribute does to that ownership. */
module Volumes {
  import opened Bytes
  import opened Arithmetic
  import opened Runlist
  import opened Streams
  import opened FixtureRecords

  /** The attribute chains of the live records, by record number. */
  type View = map<nat, seq<Attr>>

  /** One run of one attribute of one record. */
  datatype Id = Id(record: nat, attribute: nat, run: nat)

  predicate Covers(run: Run, c: nat) {
    run.lcn.Some? && run.lcn.value <= c < run.lcn.value + run.length
  }

  predicate Holds(v: View, id: Id, c: nat) {
    && id.record in v && id.attribute < |v[id.record]|
    && id.run < |v[id.record][id.attribute].body.runs|
    && Covers(v[id.record][id.attribute].body.runs[id.run], c)
  }

  ghost predicate Owned(v: View, c: nat) {
    exists id :: Holds(v, id, c)
  }

  /** No cluster has two owners. */
  ghost predicate Disjoint(v: View) {
    forall a, b, c: nat :: Holds(v, a, c) && Holds(v, b, c) ==> a == b
  }

  /** Every mapped run ends inside the volume and follows the one before it. */
  ghost predicate Sound(v: View, total: nat) {
    && (forall id, c: nat :: Holds(v, id, c) ==> c < total)
    && (forall n, k :: n in v && 0 <= k < |v[n]| ==> ContiguousAttr(v[n][k]))
  }

  predicate ContiguousAttr(a: Attr) {
    Contiguous(a.body.runs, a.body.lowestVcn)
  }

  // ---------- device bytes and clusters ----------

  lemma ClusterOf(y: nat, cs: nat)
    requires cs > 0
    ensures Span(y / cs, cs) <= y < Span(y / cs, cs) + cs
  {
    SpanIsProduct(y / cs, cs);
    DivModIs(y, cs);
  }

  lemma ClusterIn(y: nat, cs: nat, lo: nat, hi: nat)
    requires cs > 0 && Span(lo, cs) <= y < Span(hi, cs)
    ensures lo <= y / cs < hi
  {
    ClusterOf(y, cs);
    if y / cs < lo { SpanGrows(y / cs, lo, cs); }
    if hi <= y / cs { SpanMono(hi, y / cs, cs); }
  }

  /** A device byte of an attribute lies in a cluster that attribute holds. */
  lemma PlaceHeld(v: View, n: nat, k: nat, cs: nat, x: nat) returns (i: nat)
    requires cs > 0 && n in v && k < |v[n]| && Locate(v[n][k].body.runs, cs, x).At?
    ensures Holds(v, Id(n, k, i), Locate(v[n][k].body.runs, cs, x).device / cs)
  {
    hide Locate, Span;
    i := LocatingRun(v[n][k].body.runs, cs, x);
    var run := v[n][k].body.runs[i];
    ClusterIn(Locate(v[n][k].body.runs, cs, x).device, cs, run.lcn.value, run.lcn.value + run.length);
  }

  /** Two attributes never share a device byte. */
  lemma PlacesApart(v: View, cs: nat, n: nat, k: nat, x: nat, m: nat, l: nat, z: nat)
    requires cs > 0 && Disjoint(v) && n in v && k < |v[n]| && m in v && l < |v[m]|
    requires Locate(v[n][k].body.runs, cs, x).At?
        && Locate(v[m][l].body.runs, cs, z) == Locate(v[n][k].body.runs, cs, x)
    ensures n == m && k == l
  {
    hide Locate, Holds;
    var i := PlaceHeld(v, n, k, cs, x);
    var j := PlaceHeld(v, m, l, cs, z);
  }

  /** A device byte in a cluster nobody holds belongs to no attribute. */
  lemma FreePlace(v: View, cs: nat, n: nat, k: nat, x: nat, c: nat)
    requires cs > 0 && n in v && k < |v[n]| && !Owned(v, c) && Locate(v[n][k].body.runs, cs, x).At?
    ensures !(Span(c, cs) <= Locate(v[n][k].body.runs, cs, x).device < Span(c, cs) + cs)
  {
    hide Locate;
    var y := Locate(v[n][k].body.runs, cs, x).device;
    var i := PlaceHeld(v, n, k, cs, x);
    if Span(c, cs) <= y < Span(c, cs) + cs {
      ClusterIn(y, cs, c, c + 1);
    }
  }

  lemma SharedCluster(v: View, n: nat, k: nat, i: nat, j: nat)
    requires n in v && k < |v[n]| && i < j < |v[n][k].body.runs|
    requires var a, b := v[n][k].body.runs[i], v[n][k].body.runs[j];
             && a.lcn.Some? && b.lcn.Some? && a.length > 0 && b.length > 0
             && b.lcn.value < a.lcn.value + a.length && a.lcn.value < b.lcn.value + b.length
    ensures !Disjoint(v)
  {
    var a, b := v[n][k].body.runs[i], v[n][k].body.runs[j];
    var c := if a.lcn.value < b.lcn.value then b.lcn.value else a.lcn.value;
    assert Holds(v, Id(n, k, i), c) && Holds(v, Id(n, k, j), c);
  }

  /** No attribute maps two of its bytes to one place. */
  lemma AttrInjective(v: View, cs: nat, n: nat, k: nat)
    requires Disjoint(v) && n in v && k < |v[n]| && ContiguousAttr(v[n][k])
    ensures Injective(v[n][k].body.runs, cs)
  {
    hide Locate;
    var runs := v[n][k].body.runs;
    forall i, j | 0 <= i < j < |runs| && runs[i].lcn.Some? && runs[j].lcn.Some?
      ensures runs[i].lcn.value + runs[i].length <= runs[j].lcn.value
          || runs[j].lcn.value + runs[j].length <= runs[i].lcn.value
    {
      ContiguousPositive(runs, v[n][k].body.lowestVcn, i);
      ContiguousPositive(runs, v[n][k].body.lowestVcn, j);
      if runs[j].lcn.value < runs[i].lcn.value + runs[i].length
         && runs[i].lcn.value < runs[j].lcn.value + runs[j].length {
        SharedCluster(v, n, k, i, j);
      }
    }
    ExtentsInjective(runs, cs);
  }

  // ---------- moving the last cluster of a one-run attribute ----------

  /** The two runs after the last cluster of a single run moved. */
  function Split(run: Run, to: nat): (r: seq<Run>)
    requires run.length >= 2 && run.lcn.Some?
    ensures |r| == 2
  {
    [Run(run.vcn, run.length - 1, run.lcn), Run(run.vcn + run.length - 1, 1, Some(to))]
  }

  /** The attribute is one mapped run of at least two clusters. */
  predicate Movable(v: View, n: nat, t: nat) {
    && n in v && t < |v[n]| && |v[n][t].body.runs| == 1
    && v[n][t].body.runs[0].lcn.Some? && v[n][t].body.runs[0].length >= 2
  }

  function Last(v: View, n: nat, t: nat): nat
    requires Movable(v, n, t)
  {
    v[n][t].body.runs[0].lcn.value + v[n][t].body.runs[0].length - 1
  }

  /** The view with that attribute's last cluster at `to`, its record length updated. */
  function Moved(v: View, n: nat, t: nat, length: nat, to: nat): View
    requires Movable(v, n, t)
  {
    var x := v[n][t];
    v[n := v[n][t := Attr(x.offset, length, x.body.(runs := Split(x.body.runs[0], to)))]]
  }

  lemma HoldsAfter(v: View, n: nat, t: nat, length: nat, to: nat, id: Id, c: nat)
    requires Movable(v, n, t)
    ensures Holds(Moved(v, n, t, length, to), id, c)
       <==> if id == Id(n, t, 0) then Holds(v, id, c) && c != Last(v, n, t)
            else if id == Id(n, t, 1) then c == to
            else Holds(v, id, c)
  {
  }

  /** Exactly one cluster changes hands in each direction. */
  lemma OwnedAfter(v: View, n: nat, t: nat, length: nat, to: nat, c: nat)
    requires Movable(v, n, t) && Disjoint(v) && !Owned(v, to)
    ensures Owned(Moved(v, n, t, length, to), c) <==> c == to || (Owned(v, c) && c != Last(v, n, t))
    ensures Owned(v, Last(v, n, t))
  {
    var w := Moved(v, n, t, length, to);
    assert Holds(v, Id(n, t, 0), Last(v, n, t));
    HoldsAfter(v, n, t, length, to, Id(n, t, 1), c);
    if Owned(v, c) && c != Last(v, n, t) {
      var id :| Holds(v, id, c);
      HoldsAfter(v, n, t, length, to, id, c);
      assert id != Id(n, t, 1);
    }
    if Owned(w, c) {
      var id :| Holds(w, id, c);
      HoldsAfter(v, n, t, length, to, id, c);
    }
  }

  lemma DisjointAfter(v: View, n: nat, t: nat, length: nat, to: nat)
    requires Movable(v, n, t) && Disjoint(v) && !Owned(v, to)
    ensures Disjoint(Moved(v, n, t, length, to))
  {
    hide Holds, Moved;
    var w := Moved(v, n, t, length, to);
    forall a, b, c: nat | Holds(w, a, c) && Holds(w, b, c) ensures a == b {
      HoldsAfter(v, n, t, length, to, a, c);
      HoldsAfter(v, n, t, length, to, b, c);
    }
  }

  lemma SoundAfter(v: View, n: nat, t: nat, length: nat, to: nat, total: nat)
    requires Movable(v, n, t) && Sound(v, total) && to < total
    ensures Sound(Moved(v, n, t, length, to), total)
  {
    var w := Moved(v, n, t, length, to);
    forall id, c: nat | Holds(w, id, c) ensures c < total { HoldsAfter(v, n, t, length, to, id, c); }
    forall m, k | m in w && 0 <= k < |w[m]| ensures ContiguousAttr(w[m][k]) {
      assert ContiguousAttr(v[m][k]);
      if m == n && k == t { SplitContiguous(v[n][t].body.runs[0], to); }
    }
  }

  lemma SplitContiguous(run: Run, to: nat)
    requires run.length >= 2 && run.lcn.Some?
    ensures Contiguous(Split(run, to), run.vcn)
  {
    var s := Split(run, to);
    assert s[1..] == [s[1]] && s[1..][1..] == [];
    assert Contiguous(s[1..][1..], run.vcn + run.length);
    assert Contiguous(s[1..], run.vcn + run.length - 1);
  }

  /** Where a byte of the moved attribute lives: the same place, or the same offset into
      the new cluster. */
  lemma LocateSplit(run: Run, to: nat, cs: nat, x: nat)
    requires run.length >= 2 && run.lcn.Some?
    ensures var p, q, from := Locate([run], cs, x), Locate(Split(run, to), cs, x), run.lcn.value + run.length - 1;
            && (p == Outside <==> q == Outside)
            && (p.At? && p.device < Span(from, cs) ==> q == p)
            && (p.At? && p.device >= Span(from, cs) ==>
                q == At(Span(to, cs) + (p.device - Span(from, cs))) && p.device < Span(from, cs) + cs)
            && !p.Hole? && !q.Hole?
  {
    hide Span, Locate;
    var s, last := Split(run, to), run.vcn + run.length - 1;
    LocateOne(run, cs, x);
    LocateOne(s[0], cs, x);
    LocateOne(s[1], cs, x);
    assert s == [s[0], s[1]] && s[1..] == [s[1]];
    LocateTwo(s[0], s[1], cs, x);
    SpanAdd(run.lcn.value, run.length - 1, cs);
    SpanAdd(run.vcn, run.length - 1, cs);
    SpanOne(last, cs);
    assert last + 1 == run.vcn + run.length;
  }

  lemma LocateTwo(a: Run, b: Run, cs: nat, x: nat)
    ensures Locate([a, b], cs, x)
         == if Span(a.vcn, cs) <= x < Span(a.vcn + a.length, cs) then Locate([a], cs, x) else Locate([b], cs, x)
  {
    hide Span;
    assert [a, b][1..] == [b];
  }
}
