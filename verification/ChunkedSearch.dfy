/** Searching a file for a byte string, one chunk at a time. */
module ChunkedSearch {
  import opened Bytes

  predicate MatchAt(needle: Bytes, s: Bytes, i: nat) {
    i + |needle| <= |s| && s[i..i + |needle|] == needle
  }

  /** `needle in s` */
  predicate Occurs(needle: Bytes, s: Bytes) {
    exists i :: 0 <= i <= |s| && MatchAt(needle, s, i)
  }

  function Joined(chunks: seq<Bytes>): Bytes {
    if |chunks| == 0 then [] else Joined(chunks[..|chunks| - 1]) + chunks[|chunks| - 1]
  }

  /** s[-n:] for positive n, b"" for n == 0 */
  function Tail(s: Bytes, n: nat): Bytes {
    if |s| <= n then s else s[|s| - n..]
  }

  /** A match compares the needle byte by byte, at any place of the file. */
  lemma OccursIs(needle: Bytes, s: Bytes)
    ensures forall i: nat :: MatchAt(needle, s, i) <==>
              i + |needle| <= |s| && forall j :: 0 <= j < |needle| ==> s[i..][j] == needle[j]
    ensures Occurs(needle, s) <==> exists i: nat :: MatchAt(needle, s, i)
  {
    forall i: nat
      ensures MatchAt(needle, s, i) <==>
              i + |needle| <= |s| && forall j :: 0 <= j < |needle| ==> s[i..][j] == needle[j]
    {
      if i + |needle| <= |s| && forall j :: 0 <= j < |needle| ==> s[i..][j] == needle[j] {
        assert forall j :: 0 <= j < |needle| ==> s[i..i + |needle|][j] == s[i..][j];
      }
      if MatchAt(needle, s, i) {
        assert forall j :: 0 <= j < |needle| ==> s[i..i + |needle|][j] == s[i..][j];
      }
    }
  }

  /** The file is its chunks one after another. */
  lemma {:induction false} JoinedInOrder(a: seq<Bytes>, chunk: Bytes, b: seq<Bytes>)
    ensures Joined([chunk]) == chunk && Joined(a + b) == Joined(a) + Joined(b)
    decreases |b|
  {
    assert [chunk][..0] == [];
    if b == [] {
      assert a + b == a;
    } else {
      var front := b[..|b| - 1];
      assert (a + b)[..|a + b| - 1] == a + front;
      JoinedInOrder(a, chunk, front);
    }
  }

  /** A match in `read + chunk` that is not already in `read` lies in the kept tail plus the chunk. */
  lemma TailSuffices(needle: Bytes, read: Bytes, chunk: Bytes)
    requires |needle| > 0 && !Occurs(needle, read)
    ensures Occurs(needle, Tail(read, |needle| - 1) + chunk) <==> Occurs(needle, read + chunk)
  {
    var tail := Tail(read, |needle| - 1);
    var k := |read| - |tail|;
    forall i | 0 <= i <= |tail + chunk| && MatchAt(needle, tail + chunk, i) ensures Occurs(needle, read + chunk) {
      assert (read + chunk)[i + k..i + k + |needle|] == (tail + chunk)[i..i + |needle|];
      assert MatchAt(needle, read + chunk, i + k);
    }
    forall i | 0 <= i <= |read + chunk| && MatchAt(needle, read + chunk, i) ensures Occurs(needle, tail + chunk) {
      if i < k {
        EarlierMatch(needle, read, chunk, i);
      } else {
        assert (tail + chunk)[i - k..i - k + |needle|] == (read + chunk)[i..i + |needle|];
        assert MatchAt(needle, tail + chunk, i - k);
      }
    }
  }

  lemma EarlierMatch(needle: Bytes, read: Bytes, chunk: Bytes, i: nat)
    requires MatchAt(needle, read + chunk, i) && i + |needle| <= |read|
    ensures Occurs(needle, read)
  {
    assert (read + chunk)[i..i + |needle|] == read[i..i + |needle|];
    assert MatchAt(needle, read, i);
  }

  lemma TailOfTail(read: Bytes, chunk: Bytes, n: nat)
    ensures Tail(Tail(read, n) + chunk, n) == Tail(read + chunk, n)
  {
  }

  lemma {:induction false} OccursLater(needle: Bytes, chunks: seq<Bytes>, i: nat)
    requires i <= |chunks| && Occurs(needle, Joined(chunks[..i]))
    ensures Occurs(needle, Joined(chunks))
    decreases |chunks| - i
  {
    if i == |chunks| {
      assert chunks[..i] == chunks;
    } else {
      var head, more := Joined(chunks[..i]), Joined(chunks[..i + 1]);
      assert chunks[..i + 1][..i] == chunks[..i];
      var k :| 0 <= k <= |head| && MatchAt(needle, head, k);
      assert more[k..k + |needle|] == head[k..k + |needle|];
      assert MatchAt(needle, more, k);
      OccursLater(needle, chunks, i + 1);
    }
  }

  /** For a non-empty needle the answer is that of searching the whole file, however the
      file is cut into chunks; an empty needle is found in every non-empty file. */
  method FileContains(chunks: seq<Bytes>, needle: Bytes) returns (found: bool)
    requires forall c :: c in chunks ==> |c| > 0
    ensures |needle| > 0 ==> (found <==> Occurs(needle, Joined(chunks)))
    ensures |needle| == 0 ==> (found <==> chunks != [])
  {
    var overlap := if |needle| == 0 then 0 else |needle| - 1;
    var previous: Bytes := [];
    for i := 0 to |chunks|
      invariant previous == Tail(Joined(chunks[..i]), overlap)
      invariant |needle| > 0 ==> !Occurs(needle, Joined(chunks[..i]))
      invariant |needle| == 0 ==> i == 0
    {
      ghost var read := Joined(chunks[..i]);
      assert chunks[..i + 1][..i] == chunks[..i];
      assert Joined(chunks[..i + 1]) == read + chunks[i];
      var combined := previous + chunks[i];
      if |needle| > 0 { TailSuffices(needle, read, chunks[i]); }
      if Occurs(needle, combined) {
        if |needle| > 0 {
          OccursLater(needle, chunks, i + 1);
        } else {
          assert chunks[|chunks| - 1] in chunks;
        }
        return true;
      }
      assert |needle| > 0 by { if |needle| == 0 { assert MatchAt(needle, combined, 0); } }
      TailOfTail(read, chunks[i], overlap);
      previous := Tail(combined, overlap);
    }
    assert chunks[..|chunks|] == chunks;
    found := false;
  }
}
