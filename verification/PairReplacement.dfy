/** What replacing one attribute's mapping pairs does to the whole attribute chain,
    both when the new pairs fit and when the attribute grows and the end marker moves. */
module PairReplacement {
  import opened Bytes
  import opened Runlist
  import opened FixtureRecords
  import FR = FileRecords

  lemma SameAttr(a: Bytes, b: Bytes, o: nat)
    requires AttrAt(a, o).Ok? && Agree(a, b, o, o + AttrAt(a, o).value.length)
    ensures AttrAt(b, o) == AttrAt(a, o)
  {
    hide BodyOf, U32;
    SameU32(a, b, o + 4);
    SameSlice(a, b, o, o + AttrAt(a, o).value.length);
  }

  /** Records that agree from an offset on have the same chain from there. */
  lemma {:induction false} ChainAgrees(a: Bytes, b: Bytes, o: nat)
    requires Chain(a, o).Ok? && Agree(a, b, o, |a|)
    ensures Chain(b, o) == Chain(a, o)
    decreases |a| - o
  {
    hide AttrAt, U32;
    SameU32(a, b, o);
    if U32(a, o) != FR.AT_END {
      SameAttr(a, b, o);
      ChainAgrees(a, b, o + AttrAt(a, o).value.length);
    }
  }

  /** The t-th attribute sits in the record where it says, and the rest follow it. */
  lemma {:induction false} ChainAt(a: Bytes, o: nat, t: nat)
    requires Chain(a, o).Ok? && t < |Chain(a, o).value|
    ensures var chain := Chain(a, o).value;
            && o <= chain[t].offset && AttrAt(a, chain[t].offset) == Ok(chain[t]) && SoundBody(chain[t])
            && 24 <= chain[t].length && End(chain[t]) <= |a| && U32(a, chain[t].offset) != FR.AT_END
            && Chain(a, End(chain[t])) == Ok(chain[t + 1..])
    decreases t
  {
    hide AttrAt, U32, SoundBody;
    var chain, x := Chain(a, o).value, AttrAt(a, o).value;
    var more := Chain(a, o + x.length).value;
    assert chain == [x] + more;
    if t == 0 {
      assert chain[1..] == more;
    } else {
      ChainAt(a, o + x.length, t - 1);
      assert chain[t + 1..] == more[t..];
    }
  }

  /** An edit confined to one attribute and what follows it. */
  lemma {:induction false} ChainEdited(a: Bytes, b: Bytes, o: nat, t: nat, e: Attr)
    requires Chain(a, o).Ok? && t < |Chain(a, o).value|
    requires var x := Chain(a, o).value[t];
             && Agree(a, b, o, x.offset) && x.offset + 4 <= |b| && U32(b, x.offset) != FR.AT_END
             && AttrAt(b, x.offset) == Ok(e) && Chain(b, x.offset + e.length) == Ok(Chain(a, o).value[t + 1..])
    ensures Chain(b, o) == Ok(Chain(a, o).value[t := e])
    decreases t
  {
    hide AttrAt, U32, SoundBody;
    var chain, x := Chain(a, o).value, AttrAt(a, o).value;
    var more := Chain(a, o + x.length).value;
    assert chain == [x] + more;
    if t == 0 {
      assert chain[0 := e] == [e] + more;
      assert chain[1..] == more;
    } else {
      ChainAt(a, o + x.length, t - 1);
      assert more[t - 1] == chain[t] && more[t..] == chain[t + 1..];
      SameU32(a, b, o);
      SameAttr(a, b, o);
      ChainEdited(a, b, o + x.length, t - 1, e);
      assert chain[t := e] == [x] + more[t - 1 := e];
    }
  }

  // ---------- the attribute itself ----------

  /** An unnamed mapped attribute keeps everything but its runs when only its length field
      and its mapping region change. */
  lemma BodyEdited(s: Bytes, r: Bytes, runs: seq<Run>)
    requires |s| >= 24 && BodyOf(s).Ok? && BodyOf(s).value.nonresident
    requires BodyOf(s).value.name == [] && BodyOf(s).value.flags == 0
    requires BodyOf(s).value.mapping < |r|
    requires forall j :: 0 <= j < 4 || 8 <= j < BodyOf(s).value.mapping ==> r[j] == s[j]
    requires Runs(r[BodyOf(s).value.mapping..], BodyOf(s).value.lowestVcn, false) == Ok(runs)
    ensures BodyOf(r) == Ok(BodyOf(s).value.(runs := runs))
  {
    hide Runs;
  }

  /** The region holds the pairs and then zeros. */
  lemma PlacedRegion(record: Bytes, from: nat, end: nat, encoded: Bytes)
    requires from + |encoded| <= end <= |record|
    ensures Placed(record, from, end, encoded)[from..end] == encoded + Zeros(end - from - |encoded|)
    ensures forall j :: 0 <= j < |record| && !(from <= j < end) ==> Placed(record, from, end, encoded)[j] == record[j]
  {
  }

  /** The bytes of the grown record: attribute, gap, moved tail, two length fields. */
  lemma GrownBytes(record: Bytes, a: Attr, used: nat, extra: nat)
    requires 28 <= a.offset && a.offset + 24 <= End(a) <= used && used + extra <= |record| < 0x1_0000_0000
    ensures var g := Grown(record, a, used, extra);
            && (forall j :: 0 <= j < End(a) && !(24 <= j < 28) && !(a.offset + 4 <= j < a.offset + 8) ==>
               g[j] == record[j])
            && U32(g, a.offset + 4) == a.length + extra
            && (forall j :: End(a) <= j < used ==> g[j + extra] == record[j])
  {
    hide Grown, U32;
    GrownLength(record, a, used, extra);
    var g := Grown(record, a, used, extra);
    forall j | 0 <= j < End(a) && !(24 <= j < 28) && !(a.offset + 4 <= j < a.offset + 8) ensures g[j] == record[j] {
      GrownAt(record, a, used, extra, j);
    }
    forall j | End(a) <= j < used ensures g[j + extra] == record[j] {
      GrownAt(record, a, used, extra, j + extra);
    }
  }

  lemma GrownAt(record: Bytes, a: Attr, used: nat, extra: nat, j: nat)
    requires 28 <= a.offset && a.offset + 24 <= End(a) <= used && used + extra <= |record| < 0x1_0000_0000
        && j < |record|
    ensures var b := Grown(record, a, used, extra)[j];
            && (j < End(a) && !(24 <= j < 28) && !(a.offset + 4 <= j < a.offset + 8) ==> b == record[j])
            && (End(a) + extra <= j < used + extra ==> b == record[j - extra])
  {
    hide ToLe;
  }

  lemma GrownLength(record: Bytes, a: Attr, used: nat, extra: nat)
    requires 28 <= a.offset && a.offset + 24 <= End(a) <= used && used + extra <= |record| < 0x1_0000_0000
    ensures U32(Grown(record, a, used, extra), a.offset + 4) == a.length + extra
  {
    hide ToLe, U32;
    var moved := Put(record, End(a) + extra, record[End(a)..used]);
    var blanked := Put(moved, End(a), Zeros(extra));
    PutU32(blanked, a.offset + 4, a.length + extra);
    SameU32(Put(blanked, a.offset + 4, ToLe(a.length + extra, 4)), Grown(record, a, used, extra), a.offset + 4);
  }

  /** The attribute read from an edited record. */
  lemma EditedAttr(record: Bytes, b: Bytes, x: Attr, length: nat, encoded: Bytes, runs: seq<Run>)
    requires AttrAt(record, x.offset) == Ok(x) && x.body.nonresident && x.body.name == [] && x.body.flags == 0
    requires |b| == |record| && x.length <= length && x.offset + length <= |b| && 28 <= |record|
    requires forall j :: x.offset <= j < Pairs(x) && !(x.offset + 4 <= j < x.offset + 8) ==> b[j] == record[j]
    requires U32(b, x.offset + 4) == length
    requires Pairs(x) + |encoded| <= x.offset + length
    requires b[Pairs(x)..x.offset + length] == encoded + Zeros(x.offset + length - Pairs(x) - |encoded|)
    requires runs != [] && EncodePairs(runs, x.body.lowestVcn, 0) == Ok(encoded)
    ensures AttrAt(b, x.offset) == Ok(Attr(x.offset, length, x.body.(runs := runs)))
    ensures U32(b, x.offset) == U32(record, x.offset)
  {
    hide BodyOf, EncodePairs, U32, DecodePairs;
    var s, r, m := record[x.offset..x.offset + x.length], b[x.offset..x.offset + length], x.body.mapping;
    assert r[m..] == b[Pairs(x)..x.offset + length];
    RoundTrip(runs, x.body.lowestVcn, 0, Zeros(x.offset + length - Pairs(x) - |encoded|));
    BodyEdited(s, r, runs);
    SameU32(record, b, x.offset);
  }

  /** Unnamed, mapped, neither compressed nor sparse nor encrypted. */
  predicate Ordinary(x: Attr) {
    x.body.nonresident && x.body.name == [] && x.body.flags == 0 && SoundBody(x)
  }

  /** The pairs fit: every other attribute is untouched. */
  lemma FittingChain(record: Bytes, o: nat, t: nat, encoded: Bytes, runs: seq<Run>)
    requires 28 <= |record| && Chain(record, o).Ok? && t < |Chain(record, o).value|
    requires var x := Chain(record, o).value[t]; Ordinary(x) && Pairs(x) + |encoded| <= End(x) <= |record|
    requires runs != [] && EncodePairs(runs, Chain(record, o).value[t].body.lowestVcn, 0) == Ok(encoded)
    ensures var chain := Chain(record, o).value;
            var x := chain[t];
            Chain(Placed(record, Pairs(x), End(x), encoded), o)
            == Ok(chain[t := Attr(x.offset, x.length, x.body.(runs := runs))])
  {
    hide AttrAt, Chain, Placed, U32, EncodePairs;
    var chain := Chain(record, o).value;
    var x := chain[t];
    var b := Placed(record, Pairs(x), End(x), encoded);
    ChainAt(record, o, t);
    PlacedRegion(record, Pairs(x), End(x), encoded);
    assert U32(b, x.offset + 4) == x.length by { SameU32(record, b, x.offset + 4); LengthField(record, x); }
    EditedAttr(record, b, x, x.length, encoded, runs);
    ChainAgrees(record, b, End(x));
    ChainEdited(record, b, o, t, Attr(x.offset, x.length, x.body.(runs := runs)));
  }

  lemma LengthField(record: Bytes, x: Attr)
    requires AttrAt(record, x.offset) == Ok(x)
    ensures x.offset + 24 <= |record| && U32(record, x.offset + 4) == x.length
  {
    hide BodyOf, U32;
  }

  /** The attribute grows: it was the last one, and the end marker follows it again. */
  lemma GrowingChain(record: Bytes, o: nat, t: nat, used: nat, extra: nat, encoded: Bytes, runs: seq<Run>)
    requires 28 <= o && Chain(record, o).Ok? && t < |Chain(record, o).value|
    requires var x := Chain(record, o).value[t];
             && Ordinary(x) && End(x) + 4 <= used && used + extra <= |record| < 0x1_0000_0000
             && U32(record, End(x)) == FR.AT_END && Pairs(x) + |encoded| <= End(x) + extra
    requires runs != [] && EncodePairs(runs, Chain(record, o).value[t].body.lowestVcn, 0) == Ok(encoded)
    ensures var chain := Chain(record, o).value;
            var x := chain[t];
            && t == |chain| - 1 && x.offset + 24 <= End(x)
            && Chain(Placed(Grown(record, x, used, extra), Pairs(x), End(x) + extra, encoded), o)
               == Ok(chain[t := Attr(x.offset, x.length + extra, x.body.(runs := runs))])
  {
    hide AttrAt, Placed, Grown, U32, EncodePairs;
    var chain := Chain(record, o).value;
    var x := chain[t];
    ChainAt(record, o, t);
    var g := Grown(record, x, used, extra);
    GrownBytes(record, x, used, extra);
    var b := Placed(g, Pairs(x), End(x) + extra, encoded);
    PlacedRegion(g, Pairs(x), End(x) + extra, encoded);
    assert U32(b, x.offset + 4) == x.length + extra by { SameU32(g, b, x.offset + 4); }
    EditedAttr(record, b, x, x.length + extra, encoded, runs);
    assert U32(b, End(x) + extra) == FR.AT_END by { ShiftedU32(record, b, End(x), extra); }
    assert Chain(b, End(x) + extra) == Ok([]);
    assert chain[t + 1..] == [];
    ChainEdited(record, b, o, t, Attr(x.offset, x.length + extra, x.body.(runs := runs)));
  }

  lemma ShiftedU32(a: Bytes, b: Bytes, o: nat, d: nat)
    requires o + 4 <= |a| && o + d + 4 <= |b| && forall j :: o <= j < o + 4 ==> b[j + d] == a[j]
    ensures U32(b, o + d) == U32(a, o)
  {
    assert b[o + d] == a[o];
    assert b[(o + 1) + d] == a[o + 1];
    assert b[(o + 2) + d] == a[o + 2];
    assert b[(o + 3) + d] == a[o + 3];
  }

  /** The attribute's own length field. */
  predicate InLength(x: Attr, j: int) {
    x.offset + 4 <= j < x.offset + 8
  }

  /** Whether the pairs fit or the attribute grows, the chain afterwards is the old chain
      with only that attribute's runs (and length) replaced, and the bytes ahead of its
      pairs change at most in the used-bytes field and its length field. */
  lemma ReplacedChain(record: Bytes, t: nat, encoded: Bytes, runs: seq<Run>) returns (length: nat)
    requires 28 <= |record| < 0x1_0000_0000 && 28 <= First(record)
    requires Chain(record, First(record)).Ok? && t < |Chain(record, First(record)).value|
    requires var x := Chain(record, First(record)).value[t];
             && Ordinary(x) && x.offset + 24 <= End(x) <= |record| && Pairs(x) <= End(x)
             && Replaced(record, x, encoded).Ok?
    requires runs != [] && EncodePairs(runs, Chain(record, First(record)).value[t].body.lowestVcn, 0) == Ok(encoded)
    ensures var chain := Chain(record, First(record)).value;
            var x := chain[t];
            var b := Replaced(record, x, encoded).value;
            && First(b) == First(record)
            && (forall j :: 0 <= j < First(record) && !(24 <= j < 28) ==> b[j] == record[j])
            && First(record) <= x.offset
            && (forall j :: 0 <= j < Pairs(x) && !(24 <= j < 28) && !InLength(x, j) ==> b[j] == record[j])
            && x.length <= length
            && Chain(b, First(b)) == Ok(chain[t := Attr(x.offset, length, x.body.(runs := runs))])
  {
    hide AttrAt, Chain, Placed, Grown, U32, EncodePairs, EndOffset;
    var o := First(record);
    var chain := Chain(record, o).value;
    var x := chain[t];
    ChainAt(record, o, t);
    var capacity := End(x) - Pairs(x);
    if |encoded| <= capacity {
      length := x.length;
      PlacedRegion(record, Pairs(x), End(x), encoded);
      FittingChain(record, o, t, encoded, runs);
    } else {
      var extra, used := Extra(|encoded| - capacity), EndOffset(record).value.1;
      length := x.length + extra;
      GrownBytes(record, x, used, extra);
      PlacedRegion(Grown(record, x, used, extra), Pairs(x), End(x) + extra, encoded);
      GrowingChain(record, o, t, used, extra, encoded, runs);
    }
  }
}
