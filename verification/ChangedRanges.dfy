/** The maximal changed ranges between two records, and their use as an undo patch. */
module ChangedRanges {
  import opened Bytes

  datatype Range = Range(offset: nat, before: Bytes, after: Bytes)

  function End(r: Range): nat {
    r.offset + |r.before|
  }

  /** One maximal run of differing positions, with the bytes of both records. */
  predicate Maximal(r: Range, before: Bytes, after: Bytes)
    requires |before| == |after|
  {
    && |r.before| > 0 && |r.after| == |r.before| && End(r) <= |before|
    && before[r.offset..End(r)] == r.before && after[r.offset..End(r)] == r.after
    && (forall i :: r.offset <= i < End(r) ==> before[i] != after[i])
    && (r.offset > 0 ==> before[r.offset - 1] == after[r.offset - 1])
    && (End(r) < |before| ==> before[End(r)] == after[End(r)])
  }

  predicate Inside(ranges: seq<Range>, i: nat) {
    exists k :: 0 <= k < |ranges| && ranges[k].offset <= i < End(ranges[k])
  }

  /** Ordered, apart, each a maximal run. */
  predicate Ordered(ranges: seq<Range>) {
    forall j, k :: 0 <= j < k < |ranges| ==> End(ranges[j]) < ranges[k].offset
  }

  predicate AllMaximal(ranges: seq<Range>, before: Bytes, after: Bytes)
    requires |before| == |after|
  {
    forall k :: 0 <= k < |ranges| ==> Maximal(ranges[k], before, after)
  }

  /** The ranges cover exactly the positions below `limit` that differ. */
  predicate Covers(ranges: seq<Range>, before: Bytes, after: Bytes, limit: nat)
    requires |before| == |after|
  {
    forall i :: 0 <= i < |before| && i < limit ==> (before[i] != after[i] <==> Inside(ranges, i))
  }

  predicate Exact(ranges: seq<Range>, before: Bytes, after: Bytes) {
    |before| == |after| && Ordered(ranges) && AllMaximal(ranges, before, after)
        && Covers(ranges, before, after, |before|)
  }

  lemma InsideAppend(ranges: seq<Range>, r: Range, i: nat)
    ensures Inside(ranges + [r], i) <==> Inside(ranges, i) || r.offset <= i < End(r)
  {
    var more := ranges + [r];
    assert more[|ranges|] == r;
    if Inside(ranges, i) {
      var k :| 0 <= k < |ranges| && ranges[k].offset <= i < End(ranges[k]);
      assert more[k] == ranges[k];
    }
    if Inside(more, i) {
      var k :| 0 <= k < |more| && more[k].offset <= i < End(more[k]);
      assert k < |ranges| ==> more[k] == ranges[k];
    }
  }

  lemma OneMoreRange(ranges: seq<Range>, r: Range, before: Bytes, after: Bytes)
    requires |before| == |after| && Ordered(ranges) && AllMaximal(ranges, before, after)
    requires Covers(ranges, before, after, r.offset) && Maximal(r, before, after)
    requires forall k :: 0 <= k < |ranges| ==> End(ranges[k]) < r.offset
    ensures Ordered(ranges + [r]) && AllMaximal(ranges + [r], before, after)
        && Covers(ranges + [r], before, after, End(r))
  {
    assert forall i :: r.offset <= i < End(r) ==> before[i] != after[i];
    hide Maximal, Inside;
    forall i | 0 <= i < End(r) && i < |before| ensures before[i] != after[i] <==> Inside(ranges + [r], i) {
      InsideAppend(ranges, r, i);
      if i >= r.offset { BelowOnly(ranges, i); }
    }
  }

  lemma BelowOnly(ranges: seq<Range>, i: nat)
    requires forall k :: 0 <= k < |ranges| ==> End(ranges[k]) <= i
    ensures !Inside(ranges, i)
  {
  }

  /** The record size must match and something must have changed; then the ranges are exact. */
  method FindChangedRanges(before: Bytes, after: Bytes) returns (r: Result<seq<Range>>)
    ensures r.Ok? <==> |before| == |after| && before != after
    ensures r.Ok? ==> Exact(r.value, before, after) && |r.value| > 0
  {
    hide Inside;
    if |before| != |after| { return Err; }
    var ranges: seq<Range> := [];
    var cursor := 0;
    while cursor < |before|
      invariant cursor <= |before|
      invariant Ordered(ranges) && AllMaximal(ranges, before, after) && Covers(ranges, before, after, cursor)
      invariant forall k :: 0 <= k < |ranges| ==> End(ranges[k]) <= cursor
      invariant forall k :: 0 <= k < |ranges| && cursor < |before| && End(ranges[k]) == cursor ==>
          before[cursor] == after[cursor]
      invariant cursor > 0 && cursor < |before| && before[cursor - 1] != after[cursor - 1] ==>
          before[cursor] == after[cursor]
    {
      if before[cursor] == after[cursor] {
        EqualByte(ranges, before, after, cursor);
        cursor := cursor + 1;
        continue;
      }
      var start := cursor;
      while cursor < |before| && before[cursor] != after[cursor]
        invariant start <= cursor <= |before|
        invariant forall i :: start <= i < cursor ==> before[i] != after[i]
      {
        cursor := cursor + 1;
      }
      var range := Range(start, before[start..cursor], after[start..cursor]);
      OneMoreRange(ranges, range, before, after);
      ranges := ranges + [range];
    }
    Finished(ranges, before, after);
    if |ranges| == 0 { return Err; }
    return Ok(ranges);
  }

  lemma Finished(ranges: seq<Range>, before: Bytes, after: Bytes)
    requires |before| == |after|
    requires AllMaximal(ranges, before, after) && Covers(ranges, before, after, |before|)
    ensures |ranges| == 0 <==> before == after
  {
    if |ranges| == 0 {
      assert forall i :: 0 <= i < |before| ==> !Inside(ranges, i);
    } else {
      assert Maximal(ranges[0], before, after);
      assert before[ranges[0].offset] != after[ranges[0].offset];
    }
  }

  lemma EqualByte(ranges: seq<Range>, before: Bytes, after: Bytes, cursor: nat)
    requires |before| == |after| && cursor < |before| && before[cursor] == after[cursor]
    requires Covers(ranges, before, after, cursor)
    requires forall k :: 0 <= k < |ranges| ==> End(ranges[k]) <= cursor
    ensures Covers(ranges, before, after, cursor + 1)
  {
    assert !Inside(ranges, cursor);
  }

  // ---------- uniqueness ----------

  lemma SameRange(a: Range, b: Range, before: Bytes, after: Bytes, i: nat)
    requires |before| == |after| && Maximal(a, before, after) && Maximal(b, before, after)
    requires a.offset <= i < End(a) && b.offset <= i < End(b)
    ensures a == b
  {
    assert a.offset < b.offset ==> a.offset <= b.offset - 1 < End(a);
    assert b.offset < a.offset ==> b.offset <= a.offset - 1 < End(b);
  }

  lemma IndexByOffset(b: seq<Range>, before: Bytes, after: Bytes, j: nat, k: nat)
    requires Exact(b, before, after) && j < |b| && k < |b|
    ensures j < k <==> b[j].offset < b[k].offset
  {
    hide Covers;
    assert Maximal(b[j], before, after) && Maximal(b[k], before, after);
    if j < k {
      assert End(b[j]) < b[k].offset;
    } else if k < j {
      assert End(b[k]) < b[j].offset;
    }
  }

  lemma FoundInOther(a: seq<Range>, b: seq<Range>, before: Bytes, after: Bytes, k: nat) returns (m: nat)
    requires Exact(a, before, after) && Exact(b, before, after) && k < |a|
    ensures m < |b| && b[m] == a[k]
  {
    hide Ordered;
    var i := a[k].offset;
    assert Maximal(a[k], before, after);
    assert Inside(a, i) && Inside(b, i);
    m :| 0 <= m < |b| && b[m].offset <= i < End(b[m]);
    assert Maximal(b[m], before, after);
    SameRange(a[k], b[m], before, after, i);
  }

  /** The k-th range of one exact list occurs in any other, and never at a smaller index. */
  lemma {:induction false} SameIndex(a: seq<Range>, b: seq<Range>, before: Bytes, after: Bytes, k: nat) returns (m: nat)
    requires Exact(a, before, after) && Exact(b, before, after) && k < |a|
    ensures k <= m < |b| && b[m] == a[k]
  {
    hide Exact;
    m := FoundInOther(a, b, before, after, k);
    if k > 0 {
      var m0 := SameIndex(a, b, before, after, k - 1);
      IndexByOffset(a, before, after, k - 1, k);
      IndexByOffset(b, before, after, m0, m);
    }
  }

  /** There is only one exact list of ranges. */
  lemma ExactIsUnique(a: seq<Range>, b: seq<Range>, before: Bytes, after: Bytes)
    requires Exact(a, before, after) && Exact(b, before, after)
    ensures a == b
  {
    hide Exact;
    if |a| > 0 { var _ := SameIndex(a, b, before, after, |a| - 1); }
    if |b| > 0 { var _ := SameIndex(b, a, before, after, |b| - 1); }
    forall k | 0 <= k < |a| ensures a[k] == b[k] {
      var m := SameIndex(a, b, before, after, k);
      var n := SameIndex(b, a, before, after, k);
      IndexByOffset(b, before, after, k, m);
      IndexByOffset(a, before, after, k, n);
    }
  }

  // ---------- the undo patch ----------

  /** A slice assignment that fits the record; an empty one always does. */
  predicate Lands(r: Range, size: nat) {
    r.before == [] || End(r) <= size
  }

  predicate AllLand(ranges: seq<Range>, size: nat) {
    forall k :: 0 <= k < |ranges| ==> Lands(ranges[k], size)
  }

  /** The fixture's reconstruction: each range's before-bytes over the record. */
  function Patched(record: Bytes, ranges: seq<Range>): (r: Bytes)
    requires AllLand(ranges, |record|)
    ensures |r| == |record|
  {
    if |ranges| == 0 then record
    else
      var last := ranges[|ranges| - 1];
      assert Lands(last, |record|);
      var earlier := Patched(record, ranges[..|ranges| - 1]);
      if last.before == [] then earlier else Put(earlier, last.offset, last.before)
  }

  /** The range's before-bytes are those of the target. */
  predicate Undoes(r: Range, target: Bytes) {
    End(r) <= |target| && target[r.offset..End(r)] == r.before
  }

  lemma {:induction false} PatchedAt(record: Bytes, ranges: seq<Range>, target: Bytes, i: nat)
    requires |target| == |record| && i < |record| && AllLand(ranges, |record|)
    requires forall k :: 0 <= k < |ranges| ==> Undoes(ranges[k], target)
    ensures Patched(record, ranges)[i] == if Inside(ranges, i) then target[i] else record[i]
  {
    if |ranges| > 0 {
      var front, last := ranges[..|ranges| - 1], ranges[|ranges| - 1];
      PatchedAt(record, front, target, i);
      assert Undoes(last, target);
      if last.offset <= i < End(last) {
        assert last.before[i - last.offset] == target[i];
        assert Inside(ranges, i);
      } else if Inside(front, i) {
        var k :| 0 <= k < |front| && front[k].offset <= i < End(front[k]);
        assert ranges[k] == front[k];
      } else {
        assert !Inside(ranges, i);
      }
    }
  }

  /** Undoing every exact range of `after` rebuilds `before`. */
  lemma PatchRebuilds(ranges: seq<Range>, before: Bytes, after: Bytes)
    requires Exact(ranges, before, after)
    ensures AllLand(ranges, |after|) && Patched(after, ranges) == before
  {
    forall k | 0 <= k < |ranges|
      ensures Lands(ranges[k], |after|) && Undoes(ranges[k], before)
    {
      assert Maximal(ranges[k], before, after);
    }
    forall i | 0 <= i < |before| ensures Patched(after, ranges)[i] == before[i] {
      PatchedAt(after, ranges, before, i);
    }
  }

  /** The recorded length agrees with the evidence, and the record reaches that far. */
  predicate Fits(record: Bytes, r: Range, length: nat) {
    |r.after| == length && |r.before| == length && Lands(r, |record|)
  }

  /** The record holds the after-bytes of the range. */
  predicate Shows(record: Bytes, r: Range) {
    |r.after| == 0 || (r.offset + |r.after| <= |record| && record[r.offset..r.offset + |r.after|] == r.after)
  }

  lemma ShownBytes(record: Bytes, r: Range)
    requires |r.after| == 0 || r.offset + |r.after| <= |record|
    ensures Shows(record, r) <==> forall i :: 0 <= i < |r.after| ==> record[r.offset + i] == r.after[i]
  {
    if |r.after| > 0 {
      var s := record[r.offset..r.offset + |r.after|];
      assert forall i :: 0 <= i < |s| ==> s[i] == record[r.offset + i];
      assert s == r.after <==> forall i :: 0 <= i < |s| ==> s[i] == r.after[i];
    }
  }

  lemma ShownSlice(record: Bytes, r: Range)
    requires |r.after| == 0 || r.offset + |r.after| <= |record|
    ensures Shows(record, r) <==> |r.after| == 0 || record[r.offset..r.offset + |r.after|] == r.after
  {
  }

  lemma NothingPatched(record: Bytes, ranges: seq<Range>)
    ensures AllLand(ranges[..0], |record|) && Patched(record, ranges[..0]) == record
  {
  }

  lemma OneMoreLands(ranges: seq<Range>, n: nat, size: nat)
    requires n < |ranges| && AllLand(ranges[..n], size) && Lands(ranges[n], size)
    ensures AllLand(ranges[..n + 1], size)
  {
    hide Lands;
    var more := ranges[..n + 1];
    forall k | 0 <= k < |more| ensures Lands(more[k], size) {
      if k < n { assert ranges[..n][k] == more[k]; }
    }
  }

  lemma PatchedTurn(record: Bytes, ranges: seq<Range>, n: nat)
    requires n < |ranges| && AllLand(ranges[..n], |record|) && Lands(ranges[n], |record|)
    ensures AllLand(ranges[..n + 1], |record|)
    ensures Patched(record, ranges[..n + 1])
         == if ranges[n].before == [] then Patched(record, ranges[..n])
            else Put(Patched(record, ranges[..n]), ranges[n].offset, ranges[n].before)
  {
    OneMoreLands(ranges, n, |record|);
    hide Put, AllLand;
    var more := ranges[..n + 1];
    assert more[..|more| - 1] == ranges[..n] && more[|more| - 1] == ranges[n];
  }

  /** The reconstruction loop: it fails on a range that does not fit or whose evidence has
      the wrong length, and reports whether the record holds the recorded after-bytes. */
  method Reconstruct(record: Bytes, ranges: seq<Range>, lengths: seq<nat>) returns (r: Result<(Bytes, bool)>)
    requires |lengths| == |ranges|
    ensures r.Ok? <==> forall k :: 0 <= k < |ranges| ==>
              && |ranges[k].before| == |ranges[k].after| == lengths[k]
              && (lengths[k] == 0 || ranges[k].offset + lengths[k] <= |record|)
    ensures r.Ok? ==> AllLand(ranges, |record|) && r.value.0 == Patched(record, ranges)
    ensures r.Ok? ==> (r.value.1 <==> forall k, i :: 0 <= k < |ranges| && 0 <= i < lengths[k] ==>
              record[ranges[k].offset + i] == ranges[k].after[i])
  {
    hide Patched, Shows, Put;
    NothingPatched(record, ranges);
    var reconstructed, matches := record, true;
    for n := 0 to |ranges|
      invariant forall k :: 0 <= k < n ==> Fits(record, ranges[k], lengths[k])
      invariant AllLand(ranges[..n], |record|) && reconstructed == Patched(record, ranges[..n])
      invariant matches <==> forall k :: 0 <= k < n ==> Shows(record, ranges[k])
    {
      var item, length := ranges[n], lengths[n];
      if length > 0 && item.offset + length > |record| { return Err; }
      if |item.after| != length || |item.before| != length { return Err; }
      PatchedTurn(record, ranges, n);
      ShownSlice(record, item);
      if length > 0 {
        matches := matches && record[item.offset..item.offset + length] == item.after;
        reconstructed := Put(reconstructed, item.offset, item.before);
      }
    }
    assert ranges[..|ranges|] == ranges;
    forall k | 0 <= k < |ranges| { ShownBytes(record, ranges[k]); }
    return Ok((reconstructed, matches));
  }

  // ---------- the bytes outside the ranges ----------

  /** The bytes below `limit` at positions outside every range. */
  function Kept(value: Bytes, ranges: seq<Range>, limit: nat): Bytes
    requires limit <= |value|
  {
    if limit == 0 then []
    else if Inside(ranges, limit - 1) then Kept(value, ranges, limit - 1)
    else Kept(value, ranges, limit - 1) + [value[limit - 1]]
  }

  lemma {:induction false} KeptAgrees(value: Bytes, a: seq<Range>, b: seq<Range>, limit: nat)
    requires limit <= |value| && forall i :: 0 <= i < limit ==> (Inside(a, i) <==> Inside(b, i))
    ensures Kept(value, a, limit) == Kept(value, b, limit)
  {
    if limit > 0 { KeptAgrees(value, a, b, limit - 1); }
  }

  lemma {:induction false} KeptGap(value: Bytes, ranges: seq<Range>, from: nat, limit: nat)
    requires from <= limit <= |value| && forall i :: from <= i < limit ==> !Inside(ranges, i)
    ensures Kept(value, ranges, limit) == Kept(value, ranges, from) + value[from..limit]
  {
    if from < limit {
      KeptGap(value, ranges, from, limit - 1);
      assert value[from..limit] == value[from..limit - 1] + [value[limit - 1]];
    }
  }

  lemma {:induction false} KeptCovered(value: Bytes, ranges: seq<Range>, from: nat, limit: nat)
    requires from <= limit <= |value| && forall i :: from <= i < limit ==> Inside(ranges, i)
    ensures Kept(value, ranges, limit) == Kept(value, ranges, from)
  {
    if from < limit { KeptCovered(value, ranges, from, limit - 1); }
  }

  lemma InsideMore(ranges: seq<Range>, n: nat, i: nat)
    requires n < |ranges|
    ensures Inside(ranges[..n + 1], i) <==> Inside(ranges[..n], i) || ranges[n].offset <= i < End(ranges[n])
  {
    var more := ranges[..n + 1];
    if Inside(ranges[..n], i) {
      var k :| 0 <= k < n && ranges[..n][k].offset <= i < End(ranges[..n][k]);
      assert more[k] == ranges[..n][k];
    }
    if Inside(more, i) {
      var k :| 0 <= k < n + 1 && more[k].offset <= i < End(more[k]);
      assert k < n ==> ranges[..n][k] == more[k];
    }
    assert more[n] == ranges[n];
  }

  predicate AllBelow(ranges: seq<Range>, n: nat, cursor: nat)
    requires n <= |ranges|
  {
    forall k :: 0 <= k < n ==> End(ranges[k]) <= cursor
  }

  lemma NotInside(ranges: seq<Range>, n: nat, cursor: nat, i: nat)
    requires n <= |ranges| && AllBelow(ranges, n, cursor) && cursor <= i
    ensures !Inside(ranges[..n], i)
  {
    assert forall k :: 0 <= k < n ==> ranges[..n][k] == ranges[k];
  }

  /** The next range closes the gap before it and hides its own bytes. */
  lemma KeptTurn(value: Bytes, ranges: seq<Range>, n: nat, cursor: nat)
    requires n < |ranges| && cursor <= ranges[n].offset && End(ranges[n]) <= |value| && AllBelow(ranges, n, cursor)
    ensures Kept(value, ranges[..n + 1], End(ranges[n]))
        == Kept(value, ranges[..n], cursor) + value[cursor..ranges[n].offset]
  {
    hide Inside, Kept;
    var r, more := ranges[n], ranges[..n + 1];
    forall i | 0 <= i < cursor ensures Inside(ranges[..n], i) <==> Inside(more, i) { InsideMore(ranges, n, i); }
    KeptAgrees(value, ranges[..n], more, cursor);
    forall i | cursor <= i < r.offset ensures !Inside(more, i) {
      InsideMore(ranges, n, i);
      NotInside(ranges, n, cursor, i);
    }
    KeptGap(value, more, cursor, r.offset);
    forall i | r.offset <= i < End(r) ensures Inside(more, i) { InsideMore(ranges, n, i); }
    KeptCovered(value, more, r.offset, End(r));
  }

  lemma KeptRest(value: Bytes, ranges: seq<Range>, cursor: nat)
    requires cursor <= |value| && AllBelow(ranges, |ranges|, cursor)
    ensures Kept(value, ranges, |value|) == Kept(value, ranges, cursor) + value[cursor..]
  {
    hide Inside, Kept;
    assert ranges[..|ranges|] == ranges;
    forall i | cursor <= i < |value| ensures !Inside(ranges, i) { NotInside(ranges, |ranges|, cursor, i); }
    KeptGap(value, ranges, cursor, |value|);
  }

  /** Fails exactly on ranges that overlap, are out of order or exceed the record;
      otherwise keeps exactly the bytes at the positions outside them. */
  method BytesOutsideRanges(value: Bytes, ranges: seq<Range>) returns (r: Result<Bytes>)
    ensures r.Ok? <==> forall k :: 0 <= k < |ranges| ==>
              && ranges[k].offset + |ranges[k].before| <= |value|
              && (k > 0 ==> ranges[k - 1].offset + |ranges[k - 1].before| <= ranges[k].offset)
    ensures r.Ok? ==> r.value == Kept(value, ranges, |value|)
  {
    hide Inside;
    var parts: Bytes := [];
    var cursor: nat := 0;
    for n := 0 to |ranges|
      invariant cursor <= |value| && cursor == (if n == 0 then 0 else End(ranges[n - 1]))
      invariant forall k :: 0 <= k < n ==>
          End(ranges[k]) <= |value| && (k > 0 ==> End(ranges[k - 1]) <= ranges[k].offset)
      invariant parts == Kept(value, ranges[..n], cursor)
      invariant AllBelow(ranges, n, cursor)
    {
      if ranges[n].offset < cursor || End(ranges[n]) > |value| {
        return Err;
      }
      KeptTurn(value, ranges, n, cursor);
      parts := parts + value[cursor..ranges[n].offset];
      cursor := End(ranges[n]);
    }
    assert ranges[..|ranges|] == ranges;
    KeptRest(value, ranges, cursor);
    return Ok(parts + value[cursor..]);
  }

  /** `kept` are value's bytes at the ascending positions ps below the limit. */
  predicate BytesAt(ps: seq<nat>, kept: Bytes, value: Bytes, limit: nat) {
    && |ps| == |kept| && limit <= |value|
    && (forall j, k :: 0 <= j < k < |ps| ==> ps[j] < ps[k])
    && forall k :: 0 <= k < |ps| ==> ps[k] < limit && kept[k] == value[ps[k]]
  }

  lemma OneMoreByte(ps: seq<nat>, kept: Bytes, value: Bytes, limit: nat)
    requires limit < |value| && BytesAt(ps, kept, value, limit)
    ensures BytesAt(ps, kept, value, limit + 1) && BytesAt(ps + [limit], kept + [value[limit]], value, limit + 1)
  {
  }

  lemma OneMorePlace(ps: seq<nat>, limit: nat)
    ensures forall i: nat :: i in ps + [limit] <==> i in ps || i == limit
  {
  }

  /** What is kept are the bytes at the positions outside the ranges, each once and in order. */
  lemma {:induction false} KeptPositions(value: Bytes, ranges: seq<Range>, limit: nat) returns (ps: seq<nat>)
    requires limit <= |value|
    ensures BytesAt(ps, Kept(value, ranges, limit), value, limit)
    ensures forall i: nat :: i in ps <==> i < limit && !Inside(ranges, i)
  {
    hide Inside, BytesAt;
    if limit == 0 {
      ps := [];
      NoBytesAt(value);
    } else {
      ps := KeptPositions(value, ranges, limit - 1);
      OneMoreByte(ps, Kept(value, ranges, limit - 1), value, limit - 1);
      OneMorePlace(ps, limit - 1);
      if !Inside(ranges, limit - 1) { ps := ps + [limit - 1]; }
    }
  }

  lemma NoBytesAt(value: Bytes)
    ensures BytesAt([], [], value, 0)
  {
  }

  /** Two records of one size have the same bytes outside the ranges exactly when they
      agree at every position outside them. */
  lemma {:induction false} KeptEqualIff(a: Bytes, b: Bytes, ranges: seq<Range>, limit: nat)
    requires |a| == |b| && limit <= |a|
    ensures Kept(a, ranges, limit) == Kept(b, ranges, limit) <==>
        forall i :: 0 <= i < limit && !Inside(ranges, i) ==> a[i] == b[i]
    ensures |Kept(a, ranges, limit)| == |Kept(b, ranges, limit)|
  {
    hide Inside;
    if limit > 0 {
      KeptEqualIff(a, b, ranges, limit - 1);
      var x, y := Kept(a, ranges, limit - 1), Kept(b, ranges, limit - 1);
      if !Inside(ranges, limit - 1) {
        assert Kept(a, ranges, limit)[..|x|] == x && Kept(b, ranges, limit)[..|y|] == y;
        assert Kept(a, ranges, limit)[|x|] == a[limit - 1] && Kept(b, ranges, limit)[|y|] == b[limit - 1];
      }
    }
  }

  /** Exact ranges are in order, and outside them the two records hold the same bytes. */
  lemma OutsideAgrees(ranges: seq<Range>, before: Bytes, after: Bytes)
    requires Exact(ranges, before, after)
    ensures forall k :: 0 <= k < |ranges| ==>
              End(ranges[k]) <= |before| && (k > 0 ==> End(ranges[k - 1]) <= ranges[k].offset)
    ensures Kept(before, ranges, |before|) == Kept(after, ranges, |after|)
  {
    forall k | 0 <= k < |ranges|
      ensures End(ranges[k]) <= |before| && (k > 0 ==> End(ranges[k - 1]) <= ranges[k].offset)
    {
      assert Maximal(ranges[k], before, after);
    }
    KeptEqualIff(before, after, ranges, |before|);
  }
}
