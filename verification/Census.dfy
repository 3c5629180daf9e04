/** The ownership census of the journal's clusters, in its two forms: the
    validator's interval tests and the fixture builder's per-cluster owner lists. */
module Census {
  import opened Bytes
  import opened Runlist

  /** A stream: record number, attribute type, attribute name. */
  datatype Owner = Owner(inode: nat, typeCode: nat, name: Bytes)

  /** A mapped run of some stream of an allocated record. */
  datatype Claim = Claim(owner: Owner, lcn: nat, length: nat)

  datatype Extent = Extent(start: nat, end: nat)

  predicate Covers(c: Claim, cluster: nat) {
    c.lcn <= cluster < c.lcn + c.length
  }

  // ---------- extents ----------

  predicate Apart(a: Extent, b: Extent) {
    a.end <= b.start || b.end <= a.start
  }

  predicate ApartAll(a: Extent, s: seq<Extent>) {
    forall i :: 0 <= i < |s| ==> Apart(a, s[i])
  }

  predicate PairwiseApart(s: seq<Extent>) {
    forall i, j :: 0 <= i < j < |s| ==> Apart(s[i], s[j])
  }

  predicate NonEmpty(s: seq<Extent>) {
    forall i :: 0 <= i < |s| ==> s[i].start < s[i].end
  }

  /** The order of Python tuples. */
  predicate Before(a: Extent, b: Extent) {
    a.start < b.start || (a.start == b.start && a.end <= b.end)
  }

  predicate Ordered(s: seq<Extent>) {
    forall i, j :: 0 <= i < j < |s| ==> Before(s[i], s[j])
  }

  function Insert(e: Extent, s: seq<Extent>): (r: seq<Extent>) {
    if s == [] || Before(e, s[0]) then [e] + s else [s[0]] + Insert(e, s[1..])
  }

  lemma {:induction false} InsertKeeps(e: Extent, s: seq<Extent>)
    ensures multiset(Insert(e, s)) == multiset(s) + multiset{e}
  {
    if s != [] && !Before(e, s[0]) {
      InsertKeeps(e, s[1..]);
      assert s == [s[0]] + s[1..];
    }
  }

  predicate Leads(a: Extent, s: seq<Extent>) {
    forall x :: x in s ==> Before(a, x)
  }

  lemma OrderedCons(a: Extent, s: seq<Extent>)
    requires Leads(a, s) && Ordered(s)
    ensures Ordered([a] + s)
  {
  }

  lemma {:induction false} InsertOrdered(e: Extent, s: seq<Extent>)
    requires Ordered(s)
    ensures Ordered(Insert(e, s))
  {
    hide Before;
    if s != [] {
      assert forall i :: 1 <= i < |s| ==> Before(s[0], s[i]);
      assert Leads(s[0], s[1..]);
      if Before(e, s[0]) {
        assert Leads(e, s) by { BeforeChain(e, s); }
        OrderedCons(e, s);
      } else {
        InsertOrdered(e, s[1..]);
        InsertKeeps(e, s[1..]);
        var rest := Insert(e, s[1..]);
        BeforeTotal(e, s[0]);
        assert forall x :: x in rest ==> x in multiset(rest);
        OrderedCons(s[0], rest);
      }
    }
  }

  lemma BeforeTotal(a: Extent, b: Extent)
    ensures Before(a, b) || Before(b, a)
  {
  }

  lemma BeforeChain(e: Extent, s: seq<Extent>)
    requires s != [] && Before(e, s[0]) && Leads(s[0], s[1..])
    ensures Leads(e, s)
  {
    forall x | x in s
      ensures Before(e, x)
    {
      assert x == s[0] || x in s[1..];
    }
  }

  /** sorted(): the ordered rearrangement. */
  function Sorted(s: seq<Extent>): (r: seq<Extent>) {
    if s == [] then [] else Insert(s[0], Sorted(s[1..]))
  }

  lemma {:induction false} SortedIsSorted(s: seq<Extent>)
    ensures Ordered(Sorted(s)) && multiset(Sorted(s)) == multiset(s) && |Sorted(s)| == |s|
  {
    if s != [] {
      SortedIsSorted(s[1..]);
      InsertOrdered(s[0], Sorted(s[1..]));
      InsertKeeps(s[0], Sorted(s[1..]));
      assert s == [s[0]] + s[1..];
      assert |multiset(Sorted(s))| == |Sorted(s)|;
    }
  }

  /** No extent of the ordered list starts before the one ahead of it ends. */
  predicate AdjacentOk(s: seq<Extent>) {
    forall i :: 0 <= i < |s| - 1 ==> s[i].end <= s[i + 1].start
  }

  lemma {:induction false} AdjacentReaches(s: seq<Extent>, i: nat, j: nat)
    requires AdjacentOk(s) && NonEmpty(s) && i < j < |s|
    ensures s[i].end <= s[j].start
  {
    if i + 1 < j {
      AdjacentReaches(s, i, j - 1);
      assert s[j - 1].end <= s[j].start && s[j - 1].start < s[j - 1].end;
    }
  }

  /** On an ordered list the adjacent test finds exactly the overlaps of any pair. */
  lemma AdjacentIsPairwise(s: seq<Extent>)
    requires Ordered(s) && NonEmpty(s)
    ensures AdjacentOk(s) <==> PairwiseApart(s)
  {
    if AdjacentOk(s) {
      forall i, j | 0 <= i < j < |s|
        ensures Apart(s[i], s[j])
      {
        AdjacentReaches(s, i, j);
      }
    }
    if PairwiseApart(s) {
      forall i | 0 <= i < |s| - 1
        ensures s[i].end <= s[i + 1].start
      {
        assert Apart(s[i], s[i + 1]) && Before(s[i], s[i + 1]);
      }
    }
  }

  lemma {:induction false} InsertApart(e: Extent, s: seq<Extent>, x: Extent)
    ensures ApartAll(x, Insert(e, s)) <==> Apart(x, e) && ApartAll(x, s)
  {
    if s != [] && !Before(e, s[0]) {
      InsertApart(e, s[1..], x);
      ApartCons(x, s[0], Insert(e, s[1..]));
      ApartCons(x, s[0], s[1..]);
      assert s == [s[0]] + s[1..];
    } else {
      ApartCons(x, e, s);
    }
  }

  lemma ApartCons(x: Extent, e: Extent, s: seq<Extent>)
    ensures ApartAll(x, [e] + s) <==> Apart(x, e) && ApartAll(x, s)
  {
    assert ([e] + s)[0] == e;
    assert forall i :: 0 <= i < |s| ==> ([e] + s)[i + 1] == s[i];
  }

  lemma PairwiseCons(e: Extent, s: seq<Extent>)
    ensures PairwiseApart([e] + s) <==> ApartAll(e, s) && PairwiseApart(s)
  {
    var t := [e] + s;
    assert t[0] == e && forall i :: 0 <= i < |s| ==> t[i + 1] == s[i];
    if PairwiseApart(t) {
      forall i | 0 <= i < |s| ensures Apart(e, s[i]) { assert Apart(t[0], t[i + 1]); }
      forall i, j | 0 <= i < j < |s| ensures Apart(s[i], s[j]) { assert Apart(t[i + 1], t[j + 1]); }
    }
  }

  lemma {:induction false} InsertPairwise(e: Extent, s: seq<Extent>)
    ensures PairwiseApart(Insert(e, s)) <==> ApartAll(e, s) && PairwiseApart(s)
  {
    if s == [] || Before(e, s[0]) {
      PairwiseCons(e, s);
    } else {
      InsertPairwise(e, s[1..]);
      InsertApart(e, s[1..], s[0]);
      PairwiseCons(s[0], Insert(e, s[1..]));
      PairwiseCons(s[0], s[1..]);
      ApartCons(e, s[0], s[1..]);
      assert s == [s[0]] + s[1..];
    }
  }

  /** Sorting does not change which extents overlap. */
  lemma {:induction false} SortKeepsOverlap(s: seq<Extent>)
    ensures PairwiseApart(Sorted(s)) <==> PairwiseApart(s)
    ensures forall x :: ApartAll(x, Sorted(s)) <==> ApartAll(x, s)
  {
    if s != [] {
      SortKeepsOverlap(s[1..]);
      InsertPairwise(s[0], Sorted(s[1..]));
      PairwiseCons(s[0], s[1..]);
      assert s == [s[0]] + s[1..];
      forall x
        ensures ApartAll(x, Sorted(s)) <==> ApartAll(x, s)
      {
        InsertApart(s[0], Sorted(s[1..]), x);
        ApartCons(x, s[0], s[1..]);
      }
    }
  }

  lemma SortKeepsNonEmpty(s: seq<Extent>)
    requires NonEmpty(s)
    ensures NonEmpty(Sorted(s))
  {
    SortedIsSorted(s);
    forall i | 0 <= i < |Sorted(s)|
      ensures Sorted(s)[i].start < Sorted(s)[i].end
    {
      assert Sorted(s)[i] in multiset(Sorted(s));
      assert Sorted(s)[i] in s;
    }
  }

  // ---------- the validator's census ----------

  /** A non-resident attribute and what decoding its runs gave. */
  datatype Stream = Stream(typeCode: nat, name: Bytes, runs: Result<seq<Run>>)

  /** The non-resident attributes of one allocated record. */
  datatype Streams = Streams(inode: nat, streams: seq<Stream>)

  function OwnerOf(inode: nat, s: Stream): Owner {
    Owner(inode, s.typeCode, s.name)
  }

  function ExtentOf(run: Run): Extent
    requires run.lcn.Some?
  {
    Extent(run.lcn.value, run.lcn.value + run.length)
  }

  function Extents(runs: seq<Run>): (r: seq<Extent>)
    requires Mapped(runs)
    ensures |r| == |runs|
    ensures forall i :: 0 <= i < |runs| ==> r[i] == ExtentOf(runs[i])
  {
    seq(|runs|, i requires 0 <= i < |runs| => ExtentOf(runs[i]))
  }

  /** One run of the scan: inside the volume and, unless it is the journal's own, off its extents. */
  predicate RunPasses(owner: Owner, run: Run, journal: Owner, extents: seq<Extent>, total: nat) {
    run.lcn.None? || (run.lcn.value + run.length <= total && (owner == journal || ApartAll(ExtentOf(run), extents)))
  }

  predicate StreamPasses(inode: nat, s: Stream, journal: Owner, extents: seq<Extent>, total: nat) {
    s.runs.Ok? && forall i :: 0 <= i < |s.runs.value| ==>
        RunPasses(OwnerOf(inode, s), s.runs.value[i], journal, extents, total)
  }

  predicate RecordPasses(r: Streams, journal: Owner, extents: seq<Extent>, total: nat) {
    forall i :: 0 <= i < |r.streams| ==> StreamPasses(r.inode, r.streams[i], journal, extents, total)
  }

  predicate CensusAccepts(records: seq<Streams>, journal: Owner, journalRuns: seq<Run>, total: nat) {
    && Mapped(journalRuns) && PairwiseApart(Extents(journalRuns))
    && forall i :: 0 <= i < |records| ==> RecordPasses(records[i], journal, Extents(journalRuns), total)
  }

  /** validate_journal_ownership over the allocated records of the scan. */
  method ValidateJournalOwnership(records: seq<Streams>, journal: Owner, journalRuns: seq<Run>, total: nat)
    returns (accepted: bool)
    requires forall i :: 0 <= i < |journalRuns| ==> journalRuns[i].length > 0
    ensures accepted <==> CensusAccepts(records, journal, journalRuns, total)
  {
    hide RunPasses, Sorted, PairwiseApart, Ordered, Extents, NonEmpty;
    if !Mapped(journalRuns) { return false; }
    var extents := Extents(journalRuns);
    var sorted := Sorted(extents);
    SortedFacts(extents, journalRuns);
    var i := 1;
    while i < |sorted|
      invariant i >= 1
      invariant forall k :: 1 <= k < i && k < |sorted| ==> sorted[k - 1].end <= sorted[k].start
    {
      if sorted[i].start < sorted[i - 1].end {
        NotAdjacent(sorted, i - 1);
        return false;
      }
      i := i + 1;
    }
    AllAdjacent(sorted);
    for r := 0 to |records|
      invariant forall k :: 0 <= k < r ==> RecordPasses(records[k], journal, extents, total)
    {
      var record := records[r];
      for a := 0 to |record.streams|
        invariant forall k :: 0 <= k < a ==> StreamPasses(record.inode, record.streams[k], journal, extents, total)
      {
        var stream := record.streams[a];
        if stream.runs.Err? {
          assert !StreamPasses(record.inode, stream, journal, extents, total);
          return false;
        }
        for k := 0 to |stream.runs.value|
          invariant forall q :: 0 <= q < k ==>
              RunPasses(OwnerOf(record.inode, stream), stream.runs.value[q], journal, extents, total)
        {
          var passed := CheckRun(OwnerOf(record.inode, stream), stream.runs.value[k], journal, extents, sorted, total);
          if !passed {
            assert !StreamPasses(record.inode, stream, journal, extents, total);
            return false;
          }
        }
      }
    }
    accepted := true;
  }

  lemma SortedFacts(extents: seq<Extent>, runs: seq<Run>)
    requires Mapped(runs) && extents == Extents(runs)
    requires forall i :: 0 <= i < |runs| ==> runs[i].length > 0
    ensures NonEmpty(extents) && AdjacentOk(Sorted(extents)) == PairwiseApart(extents)
    ensures forall x :: ApartAll(x, Sorted(extents)) <==> ApartAll(x, extents)
  {
    SortedIsSorted(extents);
    SortKeepsNonEmpty(extents);
    AdjacentIsPairwise(Sorted(extents));
    SortKeepsOverlap(extents);
  }

  lemma NotAdjacent(s: seq<Extent>, i: nat)
    requires i + 1 < |s| && s[i + 1].start < s[i].end
    ensures !AdjacentOk(s)
  {
  }

  lemma AllAdjacent(s: seq<Extent>)
    requires forall k :: 1 <= k < |s| ==> s[k - 1].end <= s[k].start
    ensures AdjacentOk(s)
  {
    forall i | 0 <= i < |s| - 1
      ensures s[i].end <= s[i + 1].start
    {
      assert s[(i + 1) - 1].end <= s[i + 1].start;
    }
  }

  /** The tests on one run: bounds, then the overlap with every journal extent. */
  method CheckRun(owner: Owner, run: Run, journal: Owner, ghost extents: seq<Extent>, sorted: seq<Extent>, total: nat)
    returns (passed: bool)
    requires forall x :: ApartAll(x, sorted) <==> ApartAll(x, extents)
    ensures passed <==> RunPasses(owner, run, journal, extents, total)
  {
    if run.lcn.None? { return true; }
    if run.lcn.value + run.length > total { return false; }
    if owner == journal { return true; }
    var otherStart, otherEnd := run.lcn.value, run.lcn.value + run.length;
    for i := 0 to |sorted|
      invariant forall k :: 0 <= k < i ==> Apart(Extent(otherStart, otherEnd), sorted[k])
    {
      if otherStart < sorted[i].end && sorted[i].start < otherEnd {
        assert !Apart(Extent(otherStart, otherEnd), sorted[i]);
        return false;
      }
    }
    passed := true;
  }

  // ---------- per-cluster owners ----------

  /** The owners of a cluster, one entry for every run that covers it, in scan order. */
  function OwnersOf(claims: seq<Claim>, cluster: nat): (r: seq<Owner>) {
    if claims == [] then []
    else (if Covers(claims[0], cluster) then [claims[0].owner] else []) + OwnersOf(claims[1..], cluster)
  }

  function RunClaims(owner: Owner, runs: seq<Run>): (r: seq<Claim>) {
    if runs == [] then []
    else
      (if runs[0].lcn.Some? then [Claim(owner, runs[0].lcn.value, runs[0].length)] else [])
      + RunClaims(owner, runs[1..])
  }

  /** The mapped runs of a record, when every run list decodes. */
  function StreamClaims(inode: nat, streams: seq<Stream>): (r: Result<seq<Claim>>) {
    if streams == [] then Ok([])
    else
      var more := StreamClaims(inode, streams[1..]);
      if streams[0].runs.Err? || more.Err? then Err
      else Ok(RunClaims(OwnerOf(inode, streams[0]), streams[0].runs.value) + more.value)
  }

  function Claims(records: seq<Streams>): (r: Result<seq<Claim>>) {
    if records == [] then Ok([])
    else
      var first, more := StreamClaims(records[0].inode, records[0].streams), Claims(records[1..]);
      if first.Err? || more.Err? then Err else Ok(first.value + more.value)
  }

  predicate ClaimPasses(c: Claim, journal: Owner, extents: seq<Extent>, total: nat) {
    c.lcn + c.length <= total && (c.owner == journal || ApartAll(Extent(c.lcn, c.lcn + c.length), extents))
  }

  predicate AllPass(claims: seq<Claim>, journal: Owner, extents: seq<Extent>, total: nat) {
    forall i :: 0 <= i < |claims| ==> ClaimPasses(claims[i], journal, extents, total)
  }

  lemma AllPassConcat(a: seq<Claim>, b: seq<Claim>, journal: Owner, extents: seq<Extent>, total: nat)
    ensures AllPass(a + b, journal, extents, total) <==>
        AllPass(a, journal, extents, total) && AllPass(b, journal, extents, total)
  {
    hide ClaimPasses;
    assert forall i :: 0 <= i < |a| ==> (a + b)[i] == a[i];
    assert forall i :: 0 <= i < |b| ==> (a + b)[|a| + i] == b[i];
  }

  lemma {:induction false} RunClaimsPass(owner: Owner, runs: seq<Run>, journal: Owner, extents: seq<Extent>, total: nat)
    ensures AllPass(RunClaims(owner, runs), journal, extents, total)
            <==> forall i :: 0 <= i < |runs| ==> RunPasses(owner, runs[i], journal, extents, total)
  {
    if runs != [] {
      RunClaimsPass(owner, runs[1..], journal, extents, total);
      var head := if runs[0].lcn.Some? then [Claim(owner, runs[0].lcn.value, runs[0].length)] else [];
      AllPassConcat(head, RunClaims(owner, runs[1..]), journal, extents, total);
      if runs[0].lcn.Some? {
        OnePasses(head[0], journal, extents, total);
      } else {
        EmptyPasses(journal, extents, total);
      }
      assert forall i :: 1 <= i < |runs| ==> runs[i] == runs[1..][i - 1];
    }
  }

  lemma {:induction false} StreamClaimsPass(inode: nat, streams: seq<Stream>, journal: Owner, extents: seq<Extent>,
      total: nat)
    ensures (forall i :: 0 <= i < |streams| ==> StreamPasses(inode, streams[i], journal, extents, total))
            <==> (&& StreamClaims(inode, streams).Ok?
                  && AllPass(StreamClaims(inode, streams).value, journal, extents, total))
  {
    hide RunPasses, AllPass;
    if streams == [] {
      EmptyPasses(journal, extents, total);
    } else {
      StreamClaimsPass(inode, streams[1..], journal, extents, total);
      assert forall i :: 1 <= i < |streams| ==> streams[i] == streams[1..][i - 1];
      var s, more := streams[0], StreamClaims(inode, streams[1..]);
      if s.runs.Ok? {
        RunClaimsPass(OwnerOf(inode, s), s.runs.value, journal, extents, total);
        if more.Ok? {
          AllPassConcat(RunClaims(OwnerOf(inode, s), s.runs.value), more.value, journal, extents, total);
        }
      }
    }
  }

  lemma OnePasses(c: Claim, journal: Owner, extents: seq<Extent>, total: nat)
    ensures AllPass([c], journal, extents, total) <==> ClaimPasses(c, journal, extents, total)
  {
    var s := [c];
    assert s[0] == c;
  }

  lemma EmptyPasses(journal: Owner, extents: seq<Extent>, total: nat)
    ensures AllPass([], journal, extents, total)
  {
  }

  lemma {:induction false} RecordsPass(records: seq<Streams>, journal: Owner, extents: seq<Extent>, total: nat)
    ensures (forall i :: 0 <= i < |records| ==> RecordPasses(records[i], journal, extents, total))
            <==> (Claims(records).Ok? && AllPass(Claims(records).value, journal, extents, total))
  {
    hide StreamPasses, AllPass;
    if records == [] {
      EmptyPasses(journal, extents, total);
    } else {
      RecordsPass(records[1..], journal, extents, total);
      assert forall i :: 1 <= i < |records| ==> records[i] == records[1..][i - 1];
      var r := records[0];
      StreamClaimsPass(r.inode, r.streams, journal, extents, total);
      var first, more := StreamClaims(r.inode, r.streams), Claims(records[1..]);
      if first.Ok? && more.Ok? {
        AllPassConcat(first.value, more.value, journal, extents, total);
      }
    }
  }

  /** The claims of one owner, in order. */
  function Own(claims: seq<Claim>, owner: Owner): (r: seq<Claim>) {
    if claims == [] then []
    else (if claims[0].owner == owner then [claims[0]] else []) + Own(claims[1..], owner)
  }

  ghost predicate Uniquely(claims: seq<Claim>, journal: Owner, journalRuns: seq<Run>) {
    forall c: nat :: InRuns(journalRuns, c) ==> OwnersOf(claims, c) == [journal]
  }

  /** The cluster belongs to one of the journal's runs. */
  predicate InRuns(runs: seq<Run>, c: nat) {
    exists i :: 0 <= i < |runs| && runs[i].lcn.Some? && runs[i].lcn.value <= c < runs[i].lcn.value + runs[i].length
  }

  /** When nothing foreign covers a cluster, its owners are those of the journal's claims. */
  lemma {:induction false} ForeignAbsent(claims: seq<Claim>, journal: Owner, c: nat)
    requires forall i :: 0 <= i < |claims| && Covers(claims[i], c) ==> claims[i].owner == journal
    ensures OwnersOf(claims, c) == OwnersOf(Own(claims, journal), c)
  {
    if claims != [] {
      ForeignAbsent(claims[1..], journal, c);
      if claims[0].owner == journal {
        assert Own(claims, journal)[1..] == Own(claims[1..], journal);
      } else {
        assert !Covers(claims[0], c);
        assert Own(claims, journal) == Own(claims[1..], journal);
      }
    }
  }

  /** A covering claim shows up among the owners. */
  lemma {:induction false} CoverShows(claims: seq<Claim>, c: nat, i: nat)
    requires i < |claims| && Covers(claims[i], c)
    ensures claims[i].owner in OwnersOf(claims, c)
  {
    if i > 0 {
      CoverShows(claims[1..], c, i - 1);
    }
  }

  lemma {:induction false} NoneCover(claims: seq<Claim>, c: nat)
    requires forall i :: 0 <= i < |claims| ==> !Covers(claims[i], c)
    ensures OwnersOf(claims, c) == []
  {
    if claims != [] {
      assert !Covers(claims[0], c);
      NoneCover(claims[1..], c);
    }
  }

  /** Exactly one covering claim gives exactly one owner. */
  lemma {:induction false} OneCovers(claims: seq<Claim>, c: nat, i: nat)
    requires i < |claims| && Covers(claims[i], c)
    requires forall k :: 0 <= k < |claims| && k != i ==> !Covers(claims[k], c)
    ensures OwnersOf(claims, c) == [claims[i].owner]
  {
    if i == 0 {
      assert forall k :: 0 <= k < |claims[1..]| ==> claims[1..][k] == claims[k + 1];
      NoneCover(claims[1..], c);
    } else {
      assert !Covers(claims[0], c);
      OneCovers(claims[1..], c, i - 1);
    }
  }

  /** Two covering claims give at least two owners. */
  lemma {:induction false} TwoCover(claims: seq<Claim>, c: nat, i: nat, k: nat)
    requires i < k < |claims| && Covers(claims[i], c) && Covers(claims[k], c)
    ensures |OwnersOf(claims, c)| >= 2
  {
    if i == 0 {
      CoverShows(claims[1..], c, k - 1);
    } else {
      TwoCover(claims[1..], c, i - 1, k - 1);
    }
  }

  /** The journal's own claims are no more than all claims. */
  lemma {:induction false} OwnFewer(claims: seq<Claim>, journal: Owner, c: nat)
    ensures |OwnersOf(Own(claims, journal), c)| <= |OwnersOf(claims, c)|
  {
    if claims != [] {
      OwnFewer(claims[1..], journal, c);
      if claims[0].owner == journal {
        assert Own(claims, journal)[1..] == Own(claims[1..], journal);
      } else {
        assert Own(claims, journal) == Own(claims[1..], journal);
      }
    }
  }

  lemma {:induction false} JournalClaimAt(journal: Owner, runs: seq<Run>, i: nat)
    requires Mapped(runs) && i < |runs|
    ensures |RunClaims(journal, runs)| == |runs|
    ensures RunClaims(journal, runs)[i] == Claim(journal, runs[i].lcn.value, runs[i].length)
  {
    if i > 0 {
      JournalClaimAt(journal, runs[1..], i - 1);
    } else if |runs| > 1 {
      JournalClaimAt(journal, runs[1..], 0);
    }
  }

  /** Accepted: every journal cluster has the journal for its one owner. */
  lemma AcceptedIsUnique(claims: seq<Claim>, journal: Owner, runs: seq<Run>, total: nat, c: nat)
    requires Mapped(runs) && PairwiseApart(Extents(runs)) && AllPass(claims, journal, Extents(runs), total)
    requires Own(claims, journal) == RunClaims(journal, runs) && InRuns(runs, c)
    ensures OwnersOf(claims, c) == [journal]
  {
    hide OwnersOf, Own;
    var i :| 0 <= i < |runs| && runs[i].lcn.Some? && runs[i].lcn.value <= c < runs[i].lcn.value + runs[i].length;
    var extents := Extents(runs);
    forall k | 0 <= k < |claims| && Covers(claims[k], c)
      ensures claims[k].owner == journal
    {
      assert ClaimPasses(claims[k], journal, extents, total);
      assert !Apart(Extent(claims[k].lcn, claims[k].lcn + claims[k].length), extents[i]);
    }
    ForeignAbsent(claims, journal, c);
    var own := RunClaims(journal, runs);
    JournalClaimAt(journal, runs, i);
    forall k | 0 <= k < |own| && k != i
      ensures !Covers(own[k], c)
    {
      JournalClaimAt(journal, runs, k);
      assert if k < i then Apart(extents[k], extents[i]) else Apart(extents[i], extents[k]);
    }
    OneCovers(own, c, i);
  }

  /** Overlapping extents share a cluster. */
  lemma SharedCluster(a: Extent, b: Extent) returns (c: nat)
    requires a.start < a.end && b.start < b.end && !Apart(a, b)
    ensures a.start <= c < a.end && b.start <= c < b.end
  {
    c := if a.start < b.start then b.start else a.start;
  }

  /** A claim that fails the overlap test spoils some journal cluster. */
  lemma ForeignSpoils(claims: seq<Claim>, journal: Owner, runs: seq<Run>, k: nat)
    requires Mapped(runs) && k < |claims| && claims[k].owner != journal && claims[k].length > 0
    requires forall i :: 0 <= i < |runs| ==> runs[i].length > 0
    requires !ApartAll(Extent(claims[k].lcn, claims[k].lcn + claims[k].length), Extents(runs))
    ensures !Uniquely(claims, journal, runs)
  {
    hide OwnersOf;
    var e := Extent(claims[k].lcn, claims[k].lcn + claims[k].length);
    var i :| 0 <= i < |runs| && !Apart(e, Extents(runs)[i]);
    var c := SharedCluster(e, Extents(runs)[i]);
    CoverShows(claims, c, k);
    assert InRuns(runs, c) && OwnersOf(claims, c) != [journal];
  }

  /** Journal runs that overlap one another spoil a cluster. */
  lemma SelfOverlapSpoils(claims: seq<Claim>, journal: Owner, runs: seq<Run>, i: nat, k: nat)
    requires Mapped(runs) && i < k < |runs| && !Apart(Extents(runs)[i], Extents(runs)[k])
    requires forall i :: 0 <= i < |runs| ==> runs[i].length > 0
    requires Own(claims, journal) == RunClaims(journal, runs)
    ensures !Uniquely(claims, journal, runs)
  {
    hide OwnersOf, Own;
    var c := SharedCluster(Extents(runs)[i], Extents(runs)[k]);
    JournalClaimAt(journal, runs, i);
    JournalClaimAt(journal, runs, k);
    TwoCover(RunClaims(journal, runs), c, i, k);
    OwnFewer(claims, journal, c);
    assert InRuns(runs, c) && OwnersOf(claims, c) != [journal];
  }

  /** The interval census accepts exactly when no journal run is a hole, every run of
      the scan decodes and lies in the volume, and every journal cluster has the
      journal's unnamed DATA for its one owner. */
  lemma CensusIsUniqueOwnership(records: seq<Streams>, journal: Owner, runs: seq<Run>, total: nat)
    requires forall i :: 0 <= i < |runs| ==> runs[i].length > 0
    requires Claims(records).Ok? ==> Own(Claims(records).value, journal) == RunClaims(journal, runs)
    requires Claims(records).Ok? ==> forall i :: 0 <= i < |Claims(records).value| ==>
        Claims(records).value[i].length > 0
    ensures CensusAccepts(records, journal, runs, total) <==>
            && Mapped(runs) && Claims(records).Ok?
            && (forall i :: 0 <= i < |Claims(records).value| ==>
               Claims(records).value[i].lcn + Claims(records).value[i].length <= total)
            && Uniquely(Claims(records).value, journal, runs)
  {
    hide Claims, Own, OwnersOf, RecordPasses;
    if Mapped(runs) {
      RecordsPass(records, journal, Extents(runs), total);
      if Claims(records).Ok? {
        var claims := Claims(records).value;
        if CensusAccepts(records, journal, runs, total) {
          forall c: nat | InRuns(runs, c)
            ensures OwnersOf(claims, c) == [journal]
          {
            AcceptedIsUnique(claims, journal, runs, total, c);
          }
        }
        if Uniquely(claims, journal, runs) {
          forall i, k | 0 <= i < k < |runs|
            ensures Apart(Extents(runs)[i], Extents(runs)[k])
          {
            if !Apart(Extents(runs)[i], Extents(runs)[k]) { SelfOverlapSpoils(claims, journal, runs, i, k); }
          }
          forall k | 0 <= k < |claims| && claims[k].owner != journal
            ensures ApartAll(Extent(claims[k].lcn, claims[k].lcn + claims[k].length), Extents(runs))
          {
            if !ApartAll(Extent(claims[k].lcn, claims[k].lcn + claims[k].length), Extents(runs)) {
              ForeignSpoils(claims, journal, runs, k);
            }
          }
        }
      }
    }
  }

  // ---------- the fixture builder's census ----------

  lemma {:induction false} OwnersSnoc(claims: seq<Claim>, c: Claim, cluster: nat)
    ensures OwnersOf(claims + [c], cluster)
        == OwnersOf(claims, cluster) + (if Covers(c, cluster) then [c.owner] else [])
  {
    if claims != [] {
      OwnersSnoc(claims[1..], c, cluster);
      assert (claims + [c])[1..] == claims[1..] + [c];
    }
  }

  /** The clusters of the mapped journal runs. */
  ghost predicate JournalKeys(owners: map<nat, seq<Owner>>, runs: seq<Run>) {
    forall c: nat :: c in owners <==> InRuns(runs, c)
  }

  /** Claims already gone through, and those still to come. */
  function Join(seen: seq<Claim>, rest: Result<seq<Claim>>): Result<seq<Claim>> {
    if rest.Err? then Err else Ok(seen + rest.value)
  }

  lemma JoinNothing(seen: seq<Claim>, rest: Result<seq<Claim>>)
    ensures Join([], rest) == rest && Join(seen, Ok([])) == Ok(seen)
  {
    assert seen + [] == seen;
    if rest.Ok? { assert [] + rest.value == rest.value; }
  }

  lemma JoinMore(seen: seq<Claim>, more: seq<Claim>, rest: Result<seq<Claim>>)
    ensures Join(seen, Join(more, rest)) == Join(seen + more, rest)
  {
    if rest.Ok? { assert seen + (more + rest.value) == seen + more + rest.value; }
  }

  /** One record of the scan, taken off the front. */
  lemma RecordTurn(records: seq<Streams>, i: nat, seen: seq<Claim>)
    requires i < |records|
    ensures var first := StreamClaims(records[i].inode, records[i].streams);
            Join(seen, Claims(records[i..]))
            == if first.Err? then Err else Join(seen + first.value, Claims(records[i + 1..]))
  {
    hide StreamClaims;
    assert records[i..][1..] == records[i + 1..];
    var first := StreamClaims(records[i].inode, records[i].streams);
    if first.Ok? { JoinMore(seen, first.value, Claims(records[i + 1..])); }
  }

  /** One attribute of a record, taken off the front. */
  lemma StreamTurn(inode: nat, streams: seq<Stream>, j: nat, seen: seq<Claim>)
    requires j < |streams|
    ensures Join(seen, StreamClaims(inode, streams[j..]))
         == if streams[j].runs.Err? then Err
            else Join(seen + RunClaims(OwnerOf(inode, streams[j]), streams[j].runs.value),
                StreamClaims(inode, streams[j + 1..]))
  {
    hide RunClaims;
    assert streams[j..][1..] == streams[j + 1..];
    if streams[j].runs.Ok? {
      JoinMore(seen, RunClaims(OwnerOf(inode, streams[j]), streams[j].runs.value),
          StreamClaims(inode, streams[j + 1..]));
    }
  }

  /** The dictionary holds, for each of its clusters, the owners met so far. */
  ghost predicate Filled(owners: map<nat, seq<Owner>>, seen: seq<Claim>) {
    forall c :: c in owners ==> owners[c] == OwnersOf(seen, c)
  }

  /** _journal_cluster_owners: every journal cluster, then every mapped run of every
      non-resident attribute of every allocated record; an undecodable run list raises. */
  method JournalClusterOwners(records: seq<Streams>, journalRuns: seq<Run>) returns (r: Result<map<nat, seq<Owner>>>)
    ensures r.Ok? <==> Claims(records).Ok?
    ensures r.Ok? ==> JournalKeys(r.value, journalRuns) && Filled(r.value, Claims(records).value)
  {
    hide OwnersOf, Claims, StreamClaims, Join;
    var owners := EmptyOwners(journalRuns);
    ghost var seen: seq<Claim> := [];
    StartFilled(owners);
    assert records[0..] == records;
    JoinNothing([], Claims(records));
    for i := 0 to |records|
      invariant JournalKeys(owners, journalRuns) && Filled(owners, seen)
      invariant Claims(records) == Join(seen, Claims(records[i..]))
    {
      RecordTurn(records, i, seen);
      var added := AddRecord(owners, records[i], seen);
      if added.Err? { return Err; }
      owners := added.value;
      seen := seen + StreamClaims(records[i].inode, records[i].streams).value;
    }
    NoRecords(records[|records|..]);
    JoinNothing(seen, Ok([]));
    r := Ok(owners);
  }

  lemma NoRecords(records: seq<Streams>)
    requires records == []
    ensures Claims(records) == Ok([])
  {
  }

  lemma NoStreams(inode: nat, streams: seq<Stream>)
    requires streams == []
    ensures StreamClaims(inode, streams) == Ok([])
  {
  }

  lemma StartFilled(owners: map<nat, seq<Owner>>)
    requires forall c :: c in owners ==> owners[c] == []
    ensures Filled(owners, [])
  {
  }

  /** The attributes of one record. */
  method AddRecord(owners: map<nat, seq<Owner>>, record: Streams, ghost seen: seq<Claim>)
    returns (r: Result<map<nat, seq<Owner>>>)
    requires Filled(owners, seen)
    ensures r.Ok? <==> StreamClaims(record.inode, record.streams).Ok?
    ensures r.Ok? ==>
              && r.value.Keys == owners.Keys
              && Filled(r.value, seen + StreamClaims(record.inode, record.streams).value)
  {
    hide OwnersOf, StreamClaims, Join, RunClaims, Filled;
    var filled, streams := owners, record.streams;
    ghost var local: seq<Claim> := [];
    assert streams[0..] == streams && seen + [] == seen;
    JoinNothing([], StreamClaims(record.inode, streams));
    for j := 0 to |streams|
      invariant filled.Keys == owners.Keys && Filled(filled, seen + local)
      invariant StreamClaims(record.inode, streams) == Join(local, StreamClaims(record.inode, streams[j..]))
    {
      StreamTurn(record.inode, streams, j, local);
      if streams[j].runs.Err? { return Err; }
      var owner := OwnerOf(record.inode, streams[j]);
      filled := AddRuns(filled, owner, streams[j].runs.value, seen + local);
      assert seen + local + RunClaims(owner, streams[j].runs.value)
          == seen + (local + RunClaims(owner, streams[j].runs.value));
      local := local + RunClaims(owner, streams[j].runs.value);
    }
    NoStreams(record.inode, streams[|streams|..]);
    JoinNothing(local, Ok([]));
    r := Ok(filled);
  }

  /** The mapped runs of one attribute. */
  method AddRuns(owners: map<nat, seq<Owner>>, owner: Owner, runs: seq<Run>, ghost seen: seq<Claim>)
    returns (r: map<nat, seq<Owner>>)
    requires Filled(owners, seen)
    ensures r.Keys == owners.Keys && Filled(r, seen + RunClaims(owner, runs))
  {
    hide OwnersOf, Filled, RunClaims;
    r := owners;
    ghost var local: seq<Claim> := [];
    assert runs[0..] == runs && seen + [] == seen && [] + RunClaims(owner, runs) == RunClaims(owner, runs);
    for k := 0 to |runs|
      invariant r.Keys == owners.Keys && Filled(r, seen + local)
      invariant RunClaims(owner, runs) == local + RunClaims(owner, runs[k..])
    {
      RunTurn(owner, runs, k, local);
      if runs[k].lcn.Some? {
        var claim := Claim(owner, runs[k].lcn.value, runs[k].length);
        r := AddClaim(r, claim, seen + local);
        assert seen + local + [claim] == seen + (local + [claim]);
        local := local + [claim];
      }
    }
    NoRuns(owner, runs[|runs|..]);
    assert local + [] == local;
  }

  lemma NoRuns(owner: Owner, runs: seq<Run>)
    requires runs == []
    ensures RunClaims(owner, runs) == []
  {
  }

  /** One run of an attribute, taken off the front. */
  lemma RunTurn(owner: Owner, runs: seq<Run>, k: nat, seen: seq<Claim>)
    requires k < |runs|
    ensures seen + RunClaims(owner, runs[k..])
         == (if runs[k].lcn.Some? then seen + [Claim(owner, runs[k].lcn.value, runs[k].length)] else seen)
            + RunClaims(owner, runs[k + 1..])
  {
    assert runs[k..][1..] == runs[k + 1..];
    var rest := RunClaims(owner, runs[k + 1..]);
    if runs[k].lcn.Some? {
      var head := [Claim(owner, runs[k].lcn.value, runs[k].length)];
      assert seen + (head + rest) == seen + head + rest;
    } else {
      assert [] + rest == rest;
    }
  }

  method EmptyOwners(runs: seq<Run>) returns (owners: map<nat, seq<Owner>>)
    ensures JournalKeys(owners, runs) && forall c :: c in owners ==> owners[c] == []
  {
    owners := map[];
    for i := 0 to |runs|
      invariant forall c: nat :: c in owners <==> InRuns(runs[..i], c)
      invariant forall c :: c in owners ==> owners[c] == []
    {
      if runs[i].lcn.Some? {
        var lcn := runs[i].lcn.value;
        for cluster := lcn to lcn + runs[i].length
          invariant forall c: nat :: c in owners <==> InRuns(runs[..i], c) || lcn <= c < cluster
          invariant forall c :: c in owners ==> owners[c] == []
        {
          owners := owners[cluster := []];
        }
      }
      forall c: nat
        ensures InRuns(runs[..i + 1], c) <==>
                InRuns(runs[..i], c)
                || (runs[i].lcn.Some? && runs[i].lcn.value <= c < runs[i].lcn.value + runs[i].length)
      {
        InRunsSnoc(runs, i, c);
      }
    }
    assert runs[..|runs|] == runs;
  }

  lemma InRunsSnoc(runs: seq<Run>, i: nat, c: nat)
    requires i < |runs|
    ensures InRuns(runs[..i + 1], c) <==>
            InRuns(runs[..i], c) || (runs[i].lcn.Some? && runs[i].lcn.value <= c < runs[i].lcn.value + runs[i].length)
  {
    var t, u := runs[..i + 1], runs[..i];
    assert t[i] == runs[i] && forall k :: 0 <= k < i ==> t[k] == u[k];
  }

  /** One run: its owner is appended to every journal cluster it covers. */
  method AddClaim(owners: map<nat, seq<Owner>>, claim: Claim, ghost seen: seq<Claim>) returns (r: map<nat, seq<Owner>>)
    requires Filled(owners, seen)
    ensures r.Keys == owners.Keys && Filled(r, seen + [claim])
  {
    hide OwnersOf;
    r := owners;
    for cluster := claim.lcn to claim.lcn + claim.length
      invariant r.Keys == owners.Keys
      invariant forall c :: c in r ==> r[c] == owners[c] + (if claim.lcn <= c < cluster then [claim.owner] else [])
    {
      if cluster in r {
        r := r[cluster := r[cluster] + [claim.owner]];
      }
    }
    forall c | c in r
      ensures r[c] == OwnersOf(seen + [claim], c)
    {
      OwnersSnoc(seen, claim, c);
    }
  }

  /** _require_unique_journal_owner, on the dictionary of a scan with these claims. */
  method RequireUniqueJournalOwner(owners: map<nat, seq<Owner>>, journal: Owner, ghost claims: seq<Claim>,
      ghost journalRuns: seq<Run>) returns (accepted: bool)
    requires JournalKeys(owners, journalRuns) && Filled(owners, claims)
    ensures accepted <==> Uniquely(claims, journal, journalRuns)
  {
    hide OwnersOf;
    accepted := forall c :: c in owners ==> owners[c] == [journal];
  }

  // ---------- what a claim carries ----------

  /** Every mapped run of every stream is claimed under its record number, type and name. */
  lemma {:induction false} ClaimListed(records: seq<Streams>, i: nat, j: nat, k: nat)
    requires Claims(records).Ok? && i < |records| && j < |records[i].streams|
    requires records[i].streams[j].runs.Ok? && k < |records[i].streams[j].runs.value|
    requires records[i].streams[j].runs.value[k].lcn.Some?
    ensures var s, run := records[i].streams[j], records[i].streams[j].runs.value[k];
            Claim(Owner(records[i].inode, s.typeCode, s.name), run.lcn.value, run.length) in Claims(records).value
  {
    hide StreamClaims;
    if i == 0 {
      StreamListed(records[0].inode, records[0].streams, j, k);
    } else {
      ClaimListed(records[1..], i - 1, j, k);
    }
  }

  lemma {:induction false} StreamListed(inode: nat, streams: seq<Stream>, j: nat, k: nat)
    requires StreamClaims(inode, streams).Ok? && j < |streams| && streams[j].runs.Ok?
    requires k < |streams[j].runs.value| && streams[j].runs.value[k].lcn.Some?
    ensures var run := streams[j].runs.value[k];
            Claim(Owner(inode, streams[j].typeCode, streams[j].name), run.lcn.value, run.length)
            in StreamClaims(inode, streams).value
  {
    hide RunClaims;
    if j == 0 {
      RunListed(OwnerOf(inode, streams[0]), streams[0].runs.value, k);
    } else {
      StreamListed(inode, streams[1..], j - 1, k);
    }
  }

  lemma {:induction false} RunListed(owner: Owner, runs: seq<Run>, k: nat)
    requires k < |runs| && runs[k].lcn.Some?
    ensures Claim(owner, runs[k].lcn.value, runs[k].length) in RunClaims(owner, runs)
  {
    if k > 0 { RunListed(owner, runs[1..], k - 1); }
  }

  /** Any stream but the journal's unnamed DATA that covers a journal cluster makes both
      censuses refuse, a named DATA of the journal's own record included. */
  lemma ForeignStreamRefused(records: seq<Streams>, journal: nat, journalRuns: seq<Run>, total: nat,
      i: nat, j: nat, k: nat, c: nat)
    requires i < |records| && j < |records[i].streams| && records[i].streams[j].runs.Ok?
    requires k < |records[i].streams[j].runs.value|
    requires records[i].inode != journal || records[i].streams[j].typeCode != 0x80 || records[i].streams[j].name != []
    requires var run := records[i].streams[j].runs.value[k];
             run.lcn.Some? && run.lcn.value <= c < run.lcn.value + run.length
    requires InRuns(journalRuns, c)
    ensures !CensusAccepts(records, Owner(journal, 0x80, []), journalRuns, total)
    ensures Claims(records).Ok? ==> !Uniquely(Claims(records).value, Owner(journal, 0x80, []), journalRuns)
  {
    if Claims(records).Ok? {
      ClaimListed(records, i, j, k);
      var run := records[i].streams[j].runs.value[k];
      var s := records[i].streams[j];
      var claim := Claim(Owner(records[i].inode, s.typeCode, s.name), run.lcn.value, run.length);
      var claims := Claims(records).value;
      var n: nat :| n < |claims| && claims[n] == claim;
      OwnerShown(claims, n, c);
    }
    if CensusAccepts(records, Owner(journal, 0x80, []), journalRuns, total) {
      RefusedRun(records, journal, journalRuns, total, i, j, k, c);
    }
  }

  lemma {:induction false} OwnerShown(claims: seq<Claim>, n: nat, c: nat)
    requires n < |claims| && Covers(claims[n], c)
    ensures claims[n].owner in OwnersOf(claims, c)
  {
    if n > 0 { OwnerShown(claims[1..], n - 1, c); }
  }

  lemma RefusedRun(records: seq<Streams>, journal: nat, journalRuns: seq<Run>, total: nat, i: nat, j: nat, k: nat,
      c: nat)
    requires i < |records| && j < |records[i].streams| && records[i].streams[j].runs.Ok?
    requires k < |records[i].streams[j].runs.value| && Mapped(journalRuns)
    requires records[i].inode != journal || records[i].streams[j].typeCode != 0x80 || records[i].streams[j].name != []
    requires var run := records[i].streams[j].runs.value[k];
             run.lcn.Some? && run.lcn.value <= c < run.lcn.value + run.length
    requires InRuns(journalRuns, c)
    ensures !CensusAccepts(records, Owner(journal, 0x80, []), journalRuns, total)
  {
    var m: nat :| m < |journalRuns| && journalRuns[m].lcn.Some?
      && journalRuns[m].lcn.value <= c < journalRuns[m].lcn.value + journalRuns[m].length;
    var run := records[i].streams[j].runs.value[k];
    assert !Apart(ExtentOf(run), Extents(journalRuns)[m]);
    assert !RunPasses(OwnerOf(records[i].inode, records[i].streams[j]), run, Owner(journal, 0x80, []),
        Extents(journalRuns), total);
    assert !StreamPasses(records[i].inode, records[i].streams[j], Owner(journal, 0x80, []), Extents(journalRuns),
        total);
    assert !RecordPasses(records[i], Owner(journal, 0x80, []), Extents(journalRuns), total);
  }
}
