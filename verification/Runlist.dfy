/** NTFS mapping pairs: the compressed form of a stream's run list.

    A pair is a header byte (low nibble: width of the length, high nibble: width
    of the LCN delta), the length, and the signed delta; a zero byte ends the
    array.  Two decoders, an encoder and a boundary walk are modelled. */
module Runlist {
  import opened Bytes

  /** `length` clusters of a stream from VCN `vcn`; no LCN means a hole. */
  datatype Run = Run(vcn: nat, length: nat, lcn: Option<nat>)

  // ---------- signed integers ----------

  /** 2 ** (8 * w - 1) */
  function Half(w: nat): (h: int)
    requires w >= 1
    ensures h >= 1 && 2 * h == Pow256(w)
  {
    128 * Pow256(w - 1)
  }

  /** int.from_bytes(s, "little", signed=True) */
  function FromLeSigned(s: Bytes): (v: int)
    requires |s| >= 1
    ensures -Half(|s|) <= v < Half(|s|)
  {
    var u := FromLe(s);
    if u >= Half(|s|) then u - Pow256(|s|) else u
  }

  /** v.to_bytes(w, "little", signed=True) */
  function ToLeSigned(v: int, w: nat): (s: Bytes)
    requires w >= 1 && -Half(w) <= v < Half(w)
    ensures |s| == w
  {
    ToLe(if v < 0 then v + Pow256(w) else v, w)
  }

  lemma SignedRoundTrip(v: int, w: nat)
    requires w >= 1 && -Half(w) <= v < Half(w)
    ensures FromLeSigned(ToLeSigned(v, w)) == v
  {
    FromLeOfToLe(if v < 0 then v + Pow256(w) else v, w);
  }

  // ---------- decoding ----------

  /** One mapping pair: its bytes in all, the length, the LCN if it maps clusters,
      and the LCN later deltas count from. */
  datatype Pair = Pair(size: nat, length: nat, lcn: Option<nat>, base: nat)

  /** The pair at the head of s, whose header byte is not the terminator. */
  function FirstPair(s: Bytes, lcn: nat): (r: Result<Pair>)
    requires |s| > 0 && s[0] != 0
    ensures r.Ok? ==> 2 <= r.value.size <= |s| && r.value.length > 0
  {
    var lw, ow := s[0] % 16, s[0] / 16;
    if lw == 0 || lw > 8 || ow > 8 || 1 + lw + ow > |s| then Err
    else
      var length := FromLe(s[1..1 + lw]);
      var base := if ow > 0 then lcn + FromLeSigned(s[1 + lw..1 + lw + ow]) else lcn;
      if length == 0 || base < 0 then Err
      else Ok(Pair(1 + lw + ow, length, if ow > 0 then Some(base) else None, base))
  }

  /** The runs of the mapping pairs at the head of s, read from a VCN and the last LCN. */
  function DecodePairs(s: Bytes, vcn: nat, lcn: nat): (r: Result<seq<Run>>)
    decreases |s|
  {
    if |s| == 0 then Err
    else if s[0] == 0 then Ok([])
    else
      match FirstPair(s, lcn)
      case Err => Err
      case Ok(p) =>
        Prepend(Run(vcn, p.length, p.lcn), DecodePairs(s[p.size..], vcn + p.length, p.base))
  }

  function Prepend(run: Run, r: Result<seq<Run>>): Result<seq<Run>> {
    if r.Err? then Err else Ok([run] + r.value)
  }

  /** A decoder that has read `runs` and has `r` still to come. */
  function After(runs: seq<Run>, r: Result<seq<Run>>): Result<seq<Run>> {
    if r.Err? then Err else Ok(runs + r.value)
  }

  lemma AfterEnds(runs: seq<Run>, r: Result<seq<Run>>)
    ensures After([], r) == r
    ensures After(runs, Ok([])) == Ok(runs)
  {
    if r.Ok? {
      assert [] + r.value == r.value;
    }
    assert runs + [] == runs;
  }

  lemma AfterOne(runs: seq<Run>, run: Run, r: Result<seq<Run>>)
    ensures After(runs, Prepend(run, r)) == After(runs + [run], r)
  {
    if r.Ok? {
      assert runs + ([run] + r.value) == runs + [run] + r.value;
    }
  }

  /** What a decoder returns: an empty list only where the caller allows one. */
  function Runs(s: Bytes, lowestVcn: nat, allowEmpty: bool): Result<seq<Run>> {
    match DecodePairs(s, lowestVcn, 0)
    case Err => Err
    case Ok(runs) => if runs == [] && !allowEmpty then Err else Ok(runs)
  }

  /** The pair at a cursor, read from the whole buffer. */
  lemma PairAtCursor(s: Bytes, cursor: nat, lcn: nat)
    requires cursor < |s| && s[cursor] != 0
    ensures var lw, ow := s[cursor] % 16, s[cursor] / 16;
            var r := FirstPair(s[cursor..], lcn);
            if lw == 0 || lw > 8 || ow > 8 || cursor + 1 + lw + ow > |s| then r.Err?
            else
              var length := FromLe(s[cursor + 1..cursor + 1 + lw]);
              var base := if ow > 0 then lcn + FromLeSigned(s[cursor + 1 + lw..cursor + 1 + lw + ow]) else lcn;
              r == if length == 0 || base < 0 then Err
                   else Ok(Pair(1 + lw + ow, length, if ow > 0 then Some(base) else None, base))
  {
    var lw, ow := s[cursor] % 16, s[cursor] / 16;
    if cursor + 1 + lw + ow <= |s| {
      assert s[cursor..][1..1 + lw] == s[cursor + 1..cursor + 1 + lw];
      assert s[cursor..][1 + lw..1 + lw + ow] == s[cursor + 1 + lw..cursor + 1 + lw + ow];
    }
  }

  /** One turn of a decoder's loop. */
  lemma DecodeTurn(s: Bytes, cursor: nat, vcn: nat, lcn: nat, runs: seq<Run>)
    requires cursor <= |s|
    ensures var all := After(runs, DecodePairs(s[cursor..], vcn, lcn));
            if cursor == |s| then all == Err
            else if s[cursor] == 0 then all == Ok(runs)
            else if FirstPair(s[cursor..], lcn).Err? then all == Err
            else
              var p := FirstPair(s[cursor..], lcn).value;
              all == After(runs + [Run(vcn, p.length, p.lcn)],
                           DecodePairs(s[cursor + p.size..], vcn + p.length, p.base))
  {
    hide FirstPair;
    AfterEnds(runs, Err);
    if cursor < |s| && s[cursor] != 0 && FirstPair(s[cursor..], lcn).Ok? {
      var p := FirstPair(s[cursor..], lcn).value;
      assert s[cursor..][p.size..] == s[cursor + p.size..];
      AfterOne(runs, Run(vcn, p.length, p.lcn), DecodePairs(s[cursor + p.size..], vcn + p.length, p.base));
    }
  }

  /** decode_runlist of the validator. */
  method DecodeRunlist(mappingPairs: Bytes, allowEmpty: bool) returns (r: Result<seq<Run>>)
    ensures r == Runs(mappingPairs, 0, allowEmpty)
  {
    hide FirstPair, DecodePairs, After, FromLe, FromLeSigned;
    var runs: seq<Run> := [];
    var cursor: nat, currentVcn: nat, currentLcn: nat := 0, 0, 0;
    assert mappingPairs[0..] == mappingPairs;
    AfterEnds([], DecodePairs(mappingPairs, 0, 0));
    while cursor < |mappingPairs|
      invariant cursor <= |mappingPairs|
      invariant DecodePairs(mappingPairs, 0, 0)
          == After(runs, DecodePairs(mappingPairs[cursor..], currentVcn, currentLcn))
    {
      var header := mappingPairs[cursor];
      DecodeTurn(mappingPairs, cursor, currentVcn, currentLcn, runs);
      if header == 0 {
        if runs == [] && !allowEmpty { return Err; }
        return Ok(runs);
      }
      PairAtCursor(mappingPairs, cursor, currentLcn);
      var lengthBytes, offsetBytes := header % 16, header / 16;
      if lengthBytes == 0 || lengthBytes > 8 || offsetBytes > 8 { return Err; }
      if cursor + 1 + lengthBytes + offsetBytes > |mappingPairs| { return Err; }
      var length := FromLe(mappingPairs[cursor + 1..cursor + 1 + lengthBytes]);
      if length <= 0 { return Err; }
      var lcn: Option<nat> := None;
      var resolved: int := currentLcn;
      if offsetBytes > 0 {
        var delta := FromLeSigned(mappingPairs[cursor + 1 + lengthBytes..cursor + 1 + lengthBytes + offsetBytes]);
        resolved := currentLcn + delta;
        if resolved < 0 { return Err; }
        lcn := Some(resolved);
      }
      cursor := cursor + 1 + lengthBytes + offsetBytes;
      currentLcn := resolved;
      runs := runs + [Run(currentVcn, length, lcn)];
      currentVcn := currentVcn + length;
    }
    DecodeTurn(mappingPairs, cursor, currentVcn, currentLcn, runs);
    r := Err;
  }

  /** _decode_runlist of the fixture builder, from an offset and a lowest VCN. */
  method FixtureDecodeRunlist(record: Bytes, mappingOffset: nat, lowestVcn: nat) returns (r: Result<seq<Run>>)
    ensures r == if mappingOffset >= |record| then Err else Runs(record[mappingOffset..], lowestVcn, false)
  {
    hide FirstPair, DecodePairs, After, FromLe, FromLeSigned;
    if mappingOffset >= |record| { return Err; }
    var runs: seq<Run> := [];
    var cursor: nat, currentVcn: nat, currentLcn: nat := mappingOffset, lowestVcn, 0;
    AfterEnds([], DecodePairs(record[cursor..], lowestVcn, 0));
    while true
      invariant cursor <= |record|
      invariant DecodePairs(record[mappingOffset..], lowestVcn, 0)
          == After(runs, DecodePairs(record[cursor..], currentVcn, currentLcn))
      decreases |record| - cursor
    {
      DecodeTurn(record, cursor, currentVcn, currentLcn, runs);
      if cursor >= |record| { return Err; }
      var header := record[cursor];
      if header == 0 {
        if runs == [] { return Err; }
        return Ok(runs);
      }
      PairAtCursor(record, cursor, currentLcn);
      var lengthWidth, offsetWidth := header % 16, header / 16;
      if lengthWidth == 0 || lengthWidth > 8 || offsetWidth > 8 { return Err; }
      if cursor + 1 + lengthWidth + offsetWidth > |record| { return Err; }
      var runLength := FromLe(record[cursor + 1..cursor + 1 + lengthWidth]);
      if runLength == 0 { return Err; }
      var lcn: Option<nat> := None;
      var resolved: int := currentLcn;
      if offsetWidth > 0 {
        var delta := FromLeSigned(record[cursor + 1 + lengthWidth..cursor + 1 + lengthWidth + offsetWidth]);
        resolved := currentLcn + delta;
        if resolved < 0 { return Err; }
        lcn := Some(resolved);
      }
      cursor := cursor + 1 + lengthWidth + offsetWidth;
      currentLcn := resolved;
      runs := runs + [Run(currentVcn, runLength, lcn)];
      currentVcn := currentVcn + runLength;
    }
  }

  // ---------- shape of the result ----------

  /** Consecutive, non-empty runs from a given VCN. */
  predicate Contiguous(runs: seq<Run>, vcn: nat) {
    runs == [] || (runs[0].vcn == vcn && runs[0].length > 0 && Contiguous(runs[1..], vcn + runs[0].length))
  }

  lemma {:induction false} ContiguousPositive(runs: seq<Run>, vcn: nat, i: nat)
    requires Contiguous(runs, vcn) && i < |runs|
    ensures runs[i].length > 0
  {
    if i > 0 { ContiguousPositive(runs[1..], vcn + runs[0].length, i - 1); }
  }

  /** Every run maps clusters. */
  predicate Mapped(runs: seq<Run>) {
    forall i :: 0 <= i < |runs| ==> runs[i].lcn.Some?
  }

  lemma {:induction false} DecodedContiguous(s: Bytes, vcn: nat, lcn: nat)
    requires DecodePairs(s, vcn, lcn).Ok?
    ensures Contiguous(DecodePairs(s, vcn, lcn).value, vcn)
    decreases |s|
  {
    hide FirstPair;
    var runs := DecodePairs(s, vcn, lcn).value;
    if s[0] != 0 {
      var p := FirstPair(s, lcn).value;
      DecodedContiguous(s[p.size..], vcn + p.length, p.base);
      assert runs[1..] == DecodePairs(s[p.size..], vcn + p.length, p.base).value;
    }
  }

  /** Decoding from a lowest VCN is decoding from zero with every VCN moved up, so
      the two decoders accept the same arrays with the same extents. */
  lemma {:induction false} LowestVcnShifts(s: Bytes, vcn: nat, low: nat, lcn: nat)
    ensures DecodePairs(s, vcn + low, lcn) == Shifted(DecodePairs(s, vcn, lcn), low)
    decreases |s|
  {
    hide FirstPair;
    if |s| > 0 && s[0] != 0 && FirstPair(s, lcn).Ok? {
      var p := FirstPair(s, lcn).value;
      LowestVcnShifts(s[p.size..], vcn + p.length, low, p.base);
      assert vcn + low + p.length == vcn + p.length + low;
      var more := DecodePairs(s[p.size..], vcn + p.length, p.base);
      if more.Ok? {
        ShiftCons(Run(vcn, p.length, p.lcn), more.value, low);
      }
    }
  }

  function ShiftRuns(runs: seq<Run>, low: nat): (r: seq<Run>)
    ensures |r| == |runs|
  {
    seq(|runs|, i requires 0 <= i < |runs| => runs[i].(vcn := runs[i].vcn + low))
  }

  lemma ShiftCons(run: Run, more: seq<Run>, low: nat)
    ensures ShiftRuns([run] + more, low) == [run.(vcn := run.vcn + low)] + ShiftRuns(more, low)
  {
  }

  function Shifted(r: Result<seq<Run>>, low: nat): Result<seq<Run>> {
    if r.Err? then Err else Ok(ShiftRuns(r.value, low))
  }

  // ---------- encoding ----------

  /** The bytes of the shortest unsigned form of a positive value. */
  function UnsignedWidth(v: nat): (w: nat)
    requires v > 0
    ensures w >= 1 && v < Pow256(w)
    ensures forall k: nat :: v < Pow256(k) ==> w <= k
  {
    if v < 256 then
      assert Pow256(1) == 256 * Pow256(0);
      1
    else
      1 + UnsignedWidth(v / 256)
  }

  /** The least width from w up to 8 whose signed range holds v. */
  function SignedWidth(v: int, w: nat): (r: Option<nat>)
    requires 1 <= w <= 9
    ensures r.Some? ==> w <= r.value <= 8 && -Half(r.value) <= v < Half(r.value)
    ensures forall k: nat :: w <= k <= 8 && -Half(k) <= v < Half(k) ==> r.Some? && r.value <= k
    decreases 9 - w
  {
    if w == 9 then None
    else if -Half(w) <= v < Half(w) then Some(w)
    else SignedWidth(v, w + 1)
  }

  /** One encoded pair: header, length, and the LCN delta if the run is mapped. */
  function EncodePair(run: Run, lcn: nat): (r: Result<Bytes>)
    ensures r.Ok? ==> |r.value| >= 2
  {
    if run.length == 0 || UnsignedWidth(run.length) > 8 then Err
    else
      var lw := UnsignedWidth(run.length);
      match run.lcn
      case None => Ok([lw] + ToLe(run.length, lw))
      case Some(to) =>
        match SignedWidth(to - lcn, 1)
        case None => Err
        case Some(ow) => Ok([ow * 16 + lw] + ToLe(run.length, lw) + ToLeSigned(to - lcn, ow))
  }

  function Base(run: Run, lcn: nat): nat {
    if run.lcn.Some? then run.lcn.value else lcn
  }

  function EncodePairs(runs: seq<Run>, vcn: nat, lcn: nat): (r: Result<Bytes>) {
    if runs == [] then Ok([0])
    else if runs[0].vcn != vcn then Err
    else
      match EncodePair(runs[0], lcn)
      case Err => Err
      case Ok(head) =>
        match EncodePairs(runs[1..], vcn + runs[0].length, Base(runs[0], lcn))
        case Err => Err
        case Ok(tail) => Ok(head + tail)
  }

  /** encode_mapping_pairs of the fixture builder. */
  method EncodeMappingPairs(runs: seq<Run>, lowestVcn: nat) returns (r: Result<Bytes>)
    ensures r == EncodePairs(runs, lowestVcn, 0)
  {
    hide EncodePair;
    var cursorVcn: nat, cursorLcn: nat := lowestVcn, 0;
    var encoded: Bytes := [];
    assert runs[0..] == runs;
    JoinEnds([], EncodePairs(runs, lowestVcn, 0));
    for i := 0 to |runs|
      invariant EncodePairs(runs, lowestVcn, 0) == Join(encoded, EncodePairs(runs[i..], cursorVcn, cursorLcn))
    {
      var run := runs[i];
      EncodeTurn(runs, i, cursorVcn, cursorLcn, encoded);
      if run.vcn != cursorVcn { return Err; }
      var pair := EncodePair(run, cursorLcn);
      if pair.Err? { return Err; }
      if run.lcn.Some? { cursorLcn := run.lcn.value; }
      encoded := encoded + pair.value;
      cursorVcn := cursorVcn + run.length;
    }
    assert runs[|runs|..] == [];
    r := Ok(encoded + [0]);
  }

  function Join(encoded: Bytes, r: Result<Bytes>): Result<Bytes> {
    if r.Err? then Err else Ok(encoded + r.value)
  }

  lemma JoinEnds(encoded: Bytes, r: Result<Bytes>)
    ensures Join([], r) == r
  {
    if r.Ok? {
      assert [] + r.value == r.value;
    }
  }

  lemma EncodeTurn(runs: seq<Run>, i: nat, vcn: nat, lcn: nat, encoded: Bytes)
    requires i < |runs|
    ensures var all := Join(encoded, EncodePairs(runs[i..], vcn, lcn));
            if runs[i].vcn != vcn || EncodePair(runs[i], lcn).Err? then all == Err
            else all == Join(encoded + EncodePair(runs[i], lcn).value,
                             EncodePairs(runs[i + 1..], vcn + runs[i].length, Base(runs[i], lcn)))
  {
    hide EncodePair;
    assert runs[i..][1..] == runs[i + 1..];
    if runs[i].vcn == vcn && EncodePair(runs[i], lcn).Ok? {
      var head := EncodePair(runs[i], lcn).value;
      var more := EncodePairs(runs[i + 1..], vcn + runs[i].length, Base(runs[i], lcn));
      if more.Ok? {
        assert encoded + (head + more.value) == encoded + head + more.value;
      }
    }
  }

  // ---------- round trip ----------

  lemma EncodedPairDecodes(run: Run, lcn: nat, rest: Bytes)
    requires EncodePair(run, lcn).Ok?
    ensures var e := EncodePair(run, lcn).value;
            && e[0] != 0
            && FirstPair(e + rest, lcn) == Ok(Pair(|e|, run.length, run.lcn, Base(run, lcn)))
  {
    hide FirstPair, FromLe, FromLeSigned, ToLe, ToLeSigned, Half, Pow256, UnsignedWidth, SignedWidth;
    var lw := UnsignedWidth(run.length);
    FromLeOfToLe(run.length, lw);
    if run.lcn.Some? {
      var ow := SignedWidth(run.lcn.value - lcn, 1).value;
      SignedRoundTrip(run.lcn.value - lcn, ow);
      HeaderNibbles(lw, ow);
      PairReads(ow * 16 + lw, lw, ow, ToLe(run.length, lw), ToLeSigned(run.lcn.value - lcn, ow), rest, lcn);
    } else {
      HeaderNibbles(lw, 0);
      PairReads(lw, lw, 0, ToLe(run.length, lw), [], rest, lcn);
      assert [lw] + ToLe(run.length, lw) + [] == [lw] + ToLe(run.length, lw);
    }
  }

  /** Reading a pair from its three fields. */
  lemma PairReads(header: byte, lw: nat, ow: nat, l: Bytes, d: Bytes, rest: Bytes, lcn: nat)
    requires 1 <= lw <= 8 && ow <= 8 && header == ow * 16 + lw && |l| == lw && |d| == ow && FromLe(l) > 0
    requires ow > 0 ==> lcn + FromLeSigned(d) >= 0
    ensures var s := [header] + l + d + rest;
            var base := if ow > 0 then lcn + FromLeSigned(d) else lcn;
            s[0] != 0 && FirstPair(s, lcn)
                == Ok(Pair(1 + lw + ow, FromLe(l), if ow > 0 then Some(base) else None, base))
  {
    hide FromLe, FromLeSigned, Half, Pow256, FirstPair;
    WideReads(header, lw, ow, l, d, rest, lcn);
  }

  lemma ThreeParts(header: byte, l: Bytes, d: Bytes, rest: Bytes)
    ensures var s := [header] + l + d + rest;
            && |s| == 1 + |l| + |d| + |rest| && s[0] == header
            && s[1..1 + |l|] == l && s[1 + |l|..1 + |l| + |d|] == d
  {
  }

  lemma HeaderNibbles(lw: nat, ow: nat)
    requires lw < 16
    ensures (ow * 16 + lw) % 16 == lw && (ow * 16 + lw) / 16 == ow
  {
  }

  /** Decoding an encoded list gives the list back, whatever follows the terminator. */
  lemma {:induction false} RoundTrip(runs: seq<Run>, vcn: nat, lcn: nat, rest: Bytes)
    requires EncodePairs(runs, vcn, lcn).Ok?
    ensures DecodePairs(EncodePairs(runs, vcn, lcn).value + rest, vcn, lcn) == Ok(runs)
  {
    hide FirstPair, EncodePair;
    if runs != [] {
      var head := EncodePair(runs[0], lcn).value;
      var tail := EncodePairs(runs[1..], vcn + runs[0].length, Base(runs[0], lcn)).value;
      RoundTrip(runs[1..], vcn + runs[0].length, Base(runs[0], lcn), rest);
      EncodedPairDecodes(runs[0], lcn, tail + rest);
      assert head + tail + rest == head + (tail + rest);
      assert (head + (tail + rest))[|head|..] == tail + rest;
      assert runs == [runs[0]] + runs[1..];
    }
  }

  predicate Encodable(runs: seq<Run>, vcn: nat) {
    && Contiguous(runs, vcn)
    && forall i :: 0 <= i < |runs| ==> runs[i].length < Pow256(8) && (runs[i].lcn.Some? ==> runs[i].lcn.value < Half(8))
  }

  lemma PairEncodes(run: Run, lcn: nat)
    requires 0 < run.length < Pow256(8) && lcn < Half(8) && Base(run, lcn) < Half(8)
    ensures EncodePair(run, lcn).Ok?
  {
    hide UnsignedWidth, SignedWidth, ToLe, ToLeSigned, Half, Pow256;
    assert UnsignedWidth(run.length) <= 8;
    if run.lcn.Some? {
      assert SignedWidth(run.lcn.value - lcn, 1).Some?;
    }
  }

  /** Every contiguous list of positive lengths below 2**64 with LCNs below 2**63 encodes. */
  lemma {:induction false} EncodeAccepts(runs: seq<Run>, vcn: nat, lcn: nat)
    requires Encodable(runs, vcn) && lcn < Half(8)
    ensures EncodePairs(runs, vcn, lcn).Ok?
  {
    hide EncodePair, Half, Pow256;
    if runs != [] {
      var run := runs[0];
      assert run.length < Pow256(8) && Base(run, lcn) < Half(8);
      PairEncodes(run, lcn);
      EncodeAccepts(runs[1..], vcn + run.length, Base(run, lcn));
    }
  }

  /** The two decoders read back what the encoder wrote. */
  lemma EncodeDecode(runs: seq<Run>, lowestVcn: nat, rest: Bytes)
    requires runs != [] && Encodable(runs, lowestVcn)
    ensures var e := EncodePairs(runs, lowestVcn, 0);
            && e.Ok? && Runs(e.value + rest, lowestVcn, false) == Ok(runs)
            && (lowestVcn == 0 ==> forall allowEmpty :: Runs(e.value + rest, 0, allowEmpty) == Ok(runs))
  {
    EncodeAccepts(runs, lowestVcn, 0);
    RoundTrip(runs, lowestVcn, 0, rest);
  }

  /** The encoder accepts no list it cannot represent. */
  lemma {:induction false} EncodeOnlyContiguous(runs: seq<Run>, vcn: nat, lcn: nat)
    requires EncodePairs(runs, vcn, lcn).Ok?
    ensures Contiguous(runs, vcn)
  {
    if runs != [] {
      EncodeOnlyContiguous(runs[1..], vcn + runs[0].length, Base(runs[0], lcn));
    }
  }

  /** No array of pairs for the same runs is shorter than the encoder's. */
  lemma {:induction false} EncodeIsShortest(s: Bytes, vcn: nat, lcn: nat)
    requires DecodePairs(s, vcn, lcn).Ok?
    ensures var e := EncodePairs(DecodePairs(s, vcn, lcn).value, vcn, lcn);
            e.Ok? && |e.value| <= |s|
    decreases |s|
  {
    hide FirstPair, EncodePair;
    var runs := DecodePairs(s, vcn, lcn).value;
    if s[0] != 0 {
      var p := FirstPair(s, lcn).value;
      EncodeIsShortest(s[p.size..], vcn + p.length, p.base);
      assert runs[1..] == DecodePairs(s[p.size..], vcn + p.length, p.base).value;
      PairIsShortest(s, vcn, lcn);
    }
  }

  lemma PairIsShortest(s: Bytes, vcn: nat, lcn: nat)
    requires |s| > 0 && s[0] != 0 && FirstPair(s, lcn).Ok?
    ensures var p := FirstPair(s, lcn).value;
            var e := EncodePair(Run(vcn, p.length, p.lcn), lcn);
            e.Ok? && |e.value| <= p.size && Base(Run(vcn, p.length, p.lcn), lcn) == p.base
  {
    var lw, ow := s[0] % 16, s[0] / 16;
    assert FromLe(s[1..1 + lw]) < Pow256(lw);
    if ow > 0 {
      var delta := FromLeSigned(s[1 + lw..1 + lw + ow]);
      assert -Half(ow) <= delta < Half(ow);
    }
  }

  // ---------- pairs of any widths ----------

  /** The bytes of a pair whose fields take lw and ow bytes, however many they need. */
  function WidePair(length: nat, delta: int, lw: nat, ow: nat): Bytes
    requires 1 <= lw <= 8 && ow <= 8 && (ow > 0 ==> -Half(ow) <= delta < Half(ow))
  {
    [16 * ow + lw] + ToLe(length, lw) + (if ow > 0 then ToLeSigned(delta, ow) else [])
  }

  /** Such a pair reads back, whatever its widths and whatever follows: the length unsigned, the
      delta signed and added to the last LCN, no delta for a hole. */
  lemma WidePairDecodes(length: nat, delta: int, lw: nat, ow: nat, lcn: nat, rest: Bytes)
    requires 1 <= lw <= 8 && ow <= 8 && (ow > 0 ==> -Half(ow) <= delta < Half(ow))
    requires length < Pow256(lw)
    ensures var s := WidePair(length, delta, lw, ow) + rest;
            && s[0] != 0
            && FirstPair(s, lcn)
               == if length == 0 || (ow > 0 && lcn + delta < 0) then Err
                  else if ow > 0 then Ok(Pair(1 + lw + ow, length, Some(lcn + delta), lcn + delta))
                  else Ok(Pair(1 + lw, length, None, lcn))
  {
    hide FromLe, FromLeSigned, ToLe, ToLeSigned, Half, Pow256, FirstPair;
    var l, d := ToLe(length, lw), if ow > 0 then ToLeSigned(delta, ow) else [];
    FromLeOfToLe(length, lw);
    if ow > 0 { SignedRoundTrip(delta, ow); }
    WideReads(ow * 16 + lw, lw, ow, l, d, rest, lcn);
  }

  /** The same from the three fields, refusals included. */
  lemma WideReads(header: byte, lw: nat, ow: nat, l: Bytes, d: Bytes, rest: Bytes, lcn: nat)
    requires 1 <= lw <= 8 && ow <= 8 && header == ow * 16 + lw && |l| == lw && |d| == ow
    ensures var s := [header] + l + d + rest;
            var base := if ow > 0 then lcn + FromLeSigned(d) else lcn;
            && s[0] != 0
            && FirstPair(s, lcn)
               == if FromLe(l) == 0 || base < 0 then Err
                  else Ok(Pair(1 + lw + ow, FromLe(l), if ow > 0 then Some(base) else None, base))
  {
    hide FromLe, FromLeSigned, Half, Pow256;
    var s := [header] + l + d + rest;
    HeaderNibbles(lw, ow);
    ThreeParts(header, l, d, rest);
    assert s[0] % 16 == lw && s[0] / 16 == ow && 1 + lw + ow <= |s|;
  }

  /** Signed bytes come back from the number they denote. */
  lemma SignedBytes(d: Bytes)
    requires |d| >= 1
    ensures ToLeSigned(FromLeSigned(d), |d|) == d
  {
    ToLeOfFromLe(d);
  }

  lemma PairFields(s: Bytes, lcn: nat)
    requires |s| > 0 && s[0] != 0 && FirstPair(s, lcn).Ok?
    ensures var p, lw, ow := FirstPair(s, lcn).value, s[0] % 16, s[0] / 16;
            && 1 <= lw <= 8 && ow <= 8 && p.size == 1 + lw + ow <= |s| && p.length == FromLe(s[1..1 + lw])
            && p.lcn == if ow > 0 then Some(lcn + FromLeSigned(s[1 + lw..1 + lw + ow])) else None
  {
    hide FromLe, FromLeSigned, Half, Pow256;
  }

  /** And every pair that reads is one of these. */
  lemma DecodedIsWide(s: Bytes, lcn: nat) returns (delta: int, lw: nat, ow: nat)
    requires |s| > 0 && s[0] != 0 && FirstPair(s, lcn).Ok?
    ensures 1 <= lw <= 8 && ow <= 8 && (ow > 0 ==> -Half(ow) <= delta < Half(ow))
    ensures var p := FirstPair(s, lcn).value;
            && p.length < Pow256(lw) && p.size == 1 + lw + ow && s[..p.size] == WidePair(p.length, delta, lw, ow)
            && p.lcn == (if ow > 0 then Some(lcn + delta) else None)
  {
    hide FromLe, FromLeSigned, ToLe, ToLeSigned, Half, Pow256, FirstPair;
    PairFields(s, lcn);
    lw, ow := s[0] % 16, s[0] / 16;
    var l, d := s[1..1 + lw], s[1 + lw..1 + lw + ow];
    ToLeOfFromLe(l);
    delta := 0;
    if ow > 0 {
      delta := FromLeSigned(d);
      SignedBytes(d);
    }
    assert s[..1 + lw + ow] == [s[0]] + l + d;
  }

  /** A terminator alone is an empty list, returned exactly where the caller allows one. */
  lemma TerminatorOnly(s: Bytes, lowestVcn: nat)
    requires |s| > 0 && s[0] == 0
    ensures Runs(s, lowestVcn, true) == Ok([]) && Runs(s, lowestVcn, false) == Err
  {
  }
}
