/** The update-sequence ("fixup") protection of multi-sector records.

    Every sector of a protected record ends in the two bytes of a sequence
    number; the bytes it displaced are kept in an array inside the record.  Two
    implementations exist in the repository, both modelled here. */
module MultiSector {
  import opened Bytes
  import opened Arithmetic

  /** Room in a buffer of n bytes for k sectors and their fixup array at uo. */
  predicate Fits(n: nat, ss: nat, uo: nat, k: nat) {
    ss >= 512 && Span(k, ss) <= n && uo + 2 * (k + 1) <= n
  }

  lemma SpanOfLength(len: nat, ss: nat)
    requires ss >= 512 && len % ss == 0
    ensures Span(len / ss, ss) == len
  {
    DivModIs(len, ss);
    SpanIsProduct(len / ss, ss);
  }

  /** index * sector_size - 2: the trailer of sector i, counted from one. */
  function Tail(i: nat, ss: nat): (t: nat)
    requires i >= 1 && ss >= 512
    ensures t + 2 == Span(i, ss) == Span(i - 1, ss) + ss
  {
    Span(i, ss) - 2
  }

  /** The header tests of decode_mst and encode_mst. */
  predicate HeaderOk(s: Bytes, ss: nat, magic: Bytes)
    requires ss >= 512
  {
    && |magic| == 4 && 4 <= |s| && s[..4] == magic
    && ArrayOk(s, ss)
  }

  /** The header tests that remain when no signature is asked for. */
  predicate ArrayOk(s: Bytes, ss: nat)
    requires ss >= 512
  {
    && |s| >= ss && |s| % ss == 0
    && U16(s, 6) == |s| / ss + 1
    && 8 <= U16(s, 4)
    && U16(s, 4) + U16(s, 6) * 2 <= |s|
  }

  /** The sequence number written by the next protected write: never zero. */
  function NextSequence(q: nat): (n: nat)
    requires q < 0x1_0000
    ensures 1 <= n < 0x1_0000 && n != q
  {
    var n := (q + 1) % 0x1_0000;
    if n == 0 then 1 else n
  }

  /** One trailer restored from its place in the array. */
  function Restored(l: Bytes, tail: nat, replacement: nat): (r: Bytes)
    requires tail + 2 <= |l| && replacement + 2 <= |l|
    ensures |r| == |l|
  {
    Put(l, tail, l[replacement..replacement + 2])
  }

  /** One trailer moved to its place in the array and stamped. */
  function Stamped(l: Bytes, tail: nat, replacement: nat, stamp: Bytes): (r: Bytes)
    requires tail + 2 <= |l| && replacement + 2 <= |l| && |stamp| == 2
    ensures |r| == |l|
  {
    Put(Put(l, replacement, l[tail..tail + 2]), tail, stamp)
  }

  /** The record after the trailers of sectors 1..k are restored, in order. */
  function DecodeUpTo(s: Bytes, ss: nat, uo: nat, k: nat): (r: Result<Bytes>)
    requires Fits(|s|, ss, uo, k)
    ensures r.Ok? ==> |r.value| == |s|
  {
    if k == 0 then Ok(s)
    else
      match DecodeUpTo(s, ss, uo, k - 1)
      case Err => Err
      case Ok(l) =>
        if l[Tail(k, ss)..Tail(k, ss) + 2] != s[uo..uo + 2] then Err
        else Ok(Restored(l, Tail(k, ss), uo + 2 * k))
  }

  function Decode(s: Bytes, ss: nat, magic: Bytes): (r: Result<Bytes>)
    requires ss >= 512
    ensures r.Ok? ==> |r.value| == |s|
  {
    if !HeaderOk(s, ss, magic) then Err
    else
      SpanOfLength(|s|, ss);
      DecodeUpTo(s, ss, U16(s, 4), |s| / ss)
  }

  /** The record after sectors 1..k are stamped with the bytes `q`, in order. */
  function EncodeUpTo(s: Bytes, ss: nat, uo: nat, q: Bytes, k: nat): (r: Bytes)
    requires Fits(|s|, ss, uo, k) && |q| == 2
    ensures |r| == |s|
  {
    if k == 0 then Put(s, uo, q)
    else
      var p := EncodeUpTo(s, ss, uo, q, k - 1);
      Stamped(p, Tail(k, ss), uo + 2 * k, q)
  }

  function NextStamp(s: Bytes): (q: Bytes)
    requires |s| >= 8 && U16(s, 4) + 2 <= |s|
    ensures |q| == 2
  {
    ToLe(NextSequence(U16(s, U16(s, 4))), 2)
  }

  function EncodeArray(s: Bytes, ss: nat): (r: Bytes)
    requires ss >= 512 && ArrayOk(s, ss)
    ensures |r| == |s|
  {
    SpanOfLength(|s|, ss);
    EncodeUpTo(s, ss, U16(s, 4), NextStamp(s), |s| / ss)
  }

  function Encode(s: Bytes, ss: nat, magic: Bytes): (r: Result<Bytes>)
    requires ss >= 512
    ensures r.Ok? ==> |r.value| == |s|
  {
    if HeaderOk(s, ss, magic) then Ok(EncodeArray(s, ss)) else Err
  }

  // ---------- the four routines ----------

  /** The loop both decoders end in: every trailer must carry the sequence number. */
  method RestoreTrailers(raw: Bytes, sectorSize: nat, usaOffset: nat, usaCount: nat) returns (r: Result<Bytes>)
    requires sectorSize >= 512 && usaCount >= 1
    requires Span(usaCount - 1, sectorSize) == |raw| && usaOffset + 2 * usaCount <= |raw|
    ensures r == DecodeUpTo(raw, sectorSize, usaOffset, usaCount - 1)
  {
    hide Restored;
    var logical := raw;
    var updateSequence := logical[usaOffset..usaOffset + 2];
    for index := 1 to usaCount
      invariant |logical| == |raw|
      invariant Span(index - 1, sectorSize) <= |raw|
      invariant Ok(logical) == DecodeUpTo(raw, sectorSize, usaOffset, index - 1)
    {
      SpanMono(index, usaCount - 1, sectorSize);
      var tail := Tail(index, sectorSize);
      if logical[tail..tail + 2] != updateSequence {
        DecodeErrSticks(raw, sectorSize, usaOffset, index, usaCount - 1);
        return Err;
      }
      var replacement := usaOffset + index * 2;
      logical := Restored(logical, tail, replacement);
    }
    r := Ok(logical);
  }

  lemma {:induction false} DecodeErrSticks(s: Bytes, ss: nat, uo: nat, k: nat, n: nat)
    requires k <= n && Fits(|s|, ss, uo, k) && Fits(|s|, ss, uo, n)
    requires DecodeUpTo(s, ss, uo, k).Err?
    ensures DecodeUpTo(s, ss, uo, n).Err?
  {
    if k < n {
      SpanMono(n - 1, n, ss);
      DecodeErrSticks(s, ss, uo, k, n - 1);
    }
  }

  /** The loop both encoders end in: trailers move to the array, the stamp takes their place. */
  method StampTrailers(logical: Bytes, sectorSize: nat, usaOffset: nat, usaCount: nat, stamp: Bytes)
    returns (protected: Bytes)
    requires sectorSize >= 512 && usaCount >= 1 && |stamp| == 2
    requires Span(usaCount - 1, sectorSize) == |logical| && usaOffset + 2 * usaCount <= |logical|
    ensures protected == EncodeUpTo(logical, sectorSize, usaOffset, stamp, usaCount - 1)
  {
    hide Put, Stamped;
    protected := Put(logical, usaOffset, stamp);
    for index := 1 to usaCount
      invariant |protected| == |logical|
      invariant Span(index - 1, sectorSize) <= |logical|
      invariant protected == EncodeUpTo(logical, sectorSize, usaOffset, stamp, index - 1)
    {
      SpanMono(index, usaCount - 1, sectorSize);
      var tail := Tail(index, sectorSize);
      var replacement := usaOffset + index * 2;
      protected := Stamped(protected, tail, replacement, stamp);
    }
  }

  /** decode_mst of the validator. */
  method DecodeMst(raw: Bytes, sectorSize: nat, magic: Bytes) returns (r: Result<Bytes>)
    requires sectorSize >= 512
    ensures r == Decode(raw, sectorSize, magic)
  {
    if |magic| != 4 || |raw| < 4 || raw[..4] != magic { return Err; }
    if |raw| < sectorSize || |raw| % sectorSize != 0 { return Err; }
    var usaOffset, usaCount := U16(raw, 4), U16(raw, 6);
    var expectedCount := |raw| / sectorSize + 1;
    if usaCount != expectedCount { return Err; }
    if usaOffset < 8 || usaOffset + usaCount * 2 > |raw| { return Err; }
    SpanOfLength(|raw|, sectorSize);
    r := RestoreTrailers(raw, sectorSize, usaOffset, usaCount);
  }

  /** encode_mst of the validator. */
  method EncodeMst(logical: Bytes, sectorSize: nat, magic: Bytes) returns (r: Result<Bytes>)
    requires sectorSize >= 512
    ensures r == Encode(logical, sectorSize, magic)
    ensures r.Ok? && ArrayFree(sectorSize, |logical| / sectorSize, U16(logical, 4)) ==>
              CarriesNext(logical, r.value, sectorSize)
  {
    hide ArrayFree, CarriesNext;
    if |magic| != 4 || |logical| < 4 || logical[..4] != magic { return Err; }
    if |logical| < sectorSize || |logical| % sectorSize != 0 { return Err; }
    var usaOffset, usaCount := U16(logical, 4), U16(logical, 6);
    var expectedCount := |logical| / sectorSize + 1;
    if usaCount != expectedCount { return Err; }
    if usaOffset < 8 || usaOffset + usaCount * 2 > |logical| { return Err; }
    var sequence := (U16(logical, usaOffset) + 1) % 0x1_0000;
    if sequence == 0 { sequence := 1; }
    SpanOfLength(|logical|, sectorSize);
    var protected := StampTrailers(logical, sectorSize, usaOffset, usaCount, ToLe(sequence, 2));
    if ArrayFree(sectorSize, |logical| / sectorSize, usaOffset) { SequenceAdvances(logical, sectorSize); }
    r := Ok(protected);
  }

  /** The fixture builder's test of the array's length, next to the validator's. */
  lemma FixtureHeader(s: Bytes, ss: nat, n: nat)
    requires ss >= 512
    ensures (n >= 2 && (n - 1) * ss == |s|) <==> (|s| >= ss && |s| % ss == 0 && n == |s| / ss + 1)
  {
    DivModIs(|s|, ss);
    if n >= 2 && (n - 1) * ss == |s| {
      DivExact(ss, n - 1);
      MulMono(1, n - 1, ss);
    }
  }

  /** mst_decode of the fixture builder: same records, same results as decode_mst. */
  method FixtureDecode(raw: Bytes, sectorSize: nat, magic: Bytes) returns (r: Result<Bytes>)
    requires sectorSize >= 512 && |magic| == 4
    ensures r == Decode(raw, sectorSize, magic)
  {
    if |raw| < 4 || raw[..4] != magic { return Err; }
    if |raw| < 8 { return Err; }
    var usaOffset, usaCount := U16(raw, 4), U16(raw, 6);
    FixtureHeader(raw, sectorSize, usaCount);
    if usaOffset < 8 || usaCount < 2 || usaOffset + usaCount * 2 > |raw|
       || (usaCount - 1) * sectorSize != |raw| { return Err; }
    SpanOfLength(|raw|, sectorSize);
    r := RestoreTrailers(raw, sectorSize, usaOffset, usaCount);
  }

  /** mst_encode of the fixture builder: no signature test, else as encode_mst. */
  method FixtureEncode(logical: Bytes, sectorSize: nat) returns (r: Result<Bytes>)
    requires sectorSize >= 512
    ensures r == if ArrayOk(logical, sectorSize) then Ok(EncodeArray(logical, sectorSize)) else Err
    ensures r.Ok? && ArrayFree(sectorSize, |logical| / sectorSize, U16(logical, 4)) ==>
              CarriesNext(logical, r.value, sectorSize)
  {
    hide ArrayFree, CarriesNext;
    if |logical| < 8 { return Err; }
    var usaOffset, usaCount := U16(logical, 4), U16(logical, 6);
    FixtureHeader(logical, sectorSize, usaCount);
    if usaOffset < 8 || usaCount < 2 || usaOffset + usaCount * 2 > |logical|
       || (usaCount - 1) * sectorSize != |logical| { return Err; }
    var sequence := (U16(logical, usaOffset) + 1) % 0x1_0000;
    if sequence == 0 { sequence := 1; }
    SpanOfLength(|logical|, sectorSize);
    var protected := StampTrailers(logical, sectorSize, usaOffset, usaCount, ToLe(sequence, 2));
    if ArrayFree(sectorSize, |logical| / sectorSize, usaOffset) { SequenceAdvances(logical, sectorSize); }
    r := Ok(protected);
  }

  // ---------- byte-by-byte meaning ----------

  /** Byte j lies in none of the trailers of sectors 1..n. */
  ghost predicate Free(j: int, ss: nat, n: nat)
    requires ss >= 512
  {
    forall i :: 1 <= i <= n ==> !(Tail(i, ss) <= j < Tail(i, ss) + 2)
  }

  /** The fixup array at uo lies in no trailer of the sectors 1..n. */
  ghost predicate ArrayFree(ss: nat, n: nat, uo: nat)
    requires ss >= 512
  {
    forall j :: uo <= j < uo + 2 * (n + 1) ==> Free(j, ss, n)
  }

  lemma SameTwo(a: Bytes, b: Bytes, o: nat)
    requires o + 2 <= |a| && o + 2 <= |b| && a[o] == b[o] && a[o + 1] == b[o + 1]
    ensures a[o..o + 2] == b[o..o + 2]
  {
  }

  lemma TailsApart(i: nat, k: nat, ss: nat)
    requires ss >= 512 && 1 <= i < k
    ensures Tail(i, ss) + 2 <= Tail(k, ss)
  {
    SpanMono(i, k - 1, ss);
  }

  /** A trailer byte of sector i is no byte of the fixup array. */
  lemma TrailerOutsideArray(i: nat, ss: nat, n: nat, uo: nat, j: nat)
    requires ss >= 512 && ArrayFree(ss, n, uo) && 1 <= i <= n && Tail(i, ss) <= j < Tail(i, ss) + 2
    ensures !(uo <= j < uo + 2 * (n + 1))
  {
    assert uo <= j < uo + 2 * (n + 1) ==> Free(j, ss, n);
  }

  lemma RestoredAt(l: Bytes, tail: nat, replacement: nat, j: nat)
    requires tail + 2 <= |l| && replacement + 2 <= |l| && j < |l|
    ensures Restored(l, tail, replacement)[j] == if tail <= j < tail + 2 then l[replacement + (j - tail)] else l[j]
  {
  }

  lemma StampedAt(l: Bytes, tail: nat, replacement: nat, stamp: Bytes, j: nat)
    requires tail + 2 <= |l| && replacement + 2 <= |l| && |stamp| == 2 && j < |l|
    ensures Stamped(l, tail, replacement, stamp)[j]
         == if tail <= j < tail + 2 then stamp[j - tail]
            else if replacement <= j < replacement + 2 then l[tail + (j - replacement)] else l[j]
  {
  }

  /** Bytes outside the trailers are left alone. */
  lemma {:induction false} DecodeElse(s: Bytes, ss: nat, uo: nat, k: nat, n: nat, j: nat)
    requires Fits(|s|, ss, uo, k) && j < |s| && k <= n && Free(j, ss, n)
    requires DecodeUpTo(s, ss, uo, k).Ok?
    ensures DecodeUpTo(s, ss, uo, k).value[j] == s[j]
  {
    hide Restored;
    if k > 0 {
      DecodeElse(s, ss, uo, k - 1, n, j);
      RestoredAt(DecodeUpTo(s, ss, uo, k - 1).value, Tail(k, ss), uo + 2 * k, j);
    }
  }

  /** The trailer of a sector not yet reached is left alone. */
  lemma {:induction false} DecodeLater(s: Bytes, ss: nat, uo: nat, k: nat, i: nat, j: nat)
    requires Fits(|s|, ss, uo, k) && k < i && j < |s| && Tail(i, ss) <= j
    requires DecodeUpTo(s, ss, uo, k).Ok?
    ensures DecodeUpTo(s, ss, uo, k).value[j] == s[j]
  {
    hide Restored;
    if k > 0 {
      TailsApart(k, i, ss);
      DecodeLater(s, ss, uo, k - 1, i, j);
      RestoredAt(DecodeUpTo(s, ss, uo, k - 1).value, Tail(k, ss), uo + 2 * k, j);
    }
  }

  /** The trailer of sector i comes from entry i of the array. */
  lemma {:induction false} DecodeTrailer(s: Bytes, ss: nat, uo: nat, k: nat, n: nat, i: nat, d: nat)
    requires Fits(|s|, ss, uo, k) && ArrayFree(ss, n, uo) && 1 <= i <= k <= n && d < 2
    requires DecodeUpTo(s, ss, uo, k).Ok? && Tail(i, ss) + d < |s|
    ensures DecodeUpTo(s, ss, uo, k).value[Tail(i, ss) + d] == s[uo + 2 * i + d]
  {
    hide Restored, Free;
    RestoredAt(DecodeUpTo(s, ss, uo, k - 1).value, Tail(k, ss), uo + 2 * k, Tail(i, ss) + d);
    if i < k {
      TailsApart(i, k, ss);
      DecodeTrailer(s, ss, uo, k - 1, n, i, d);
    } else {
      assert Free(uo + 2 * i + d, ss, n);
      DecodeElse(s, ss, uo, k - 1, n, uo + 2 * i + d);
    }
  }

  /** The trailer of sector i holds the sequence number. */
  predicate TrailerMatches(s: Bytes, ss: nat, uo: nat, i: nat)
    requires ss >= 512 && i >= 1 && uo + 2 <= |s|
  {
    Tail(i, ss) + 2 <= |s| && s[Tail(i, ss)..Tail(i, ss) + 2] == s[uo..uo + 2]
  }

  /** Decoding accepts exactly the records every one of whose trailers carries
      the sequence number. */
  lemma {:induction false} DecodeAccepts(s: Bytes, ss: nat, uo: nat, k: nat)
    requires Fits(|s|, ss, uo, k)
    ensures DecodeUpTo(s, ss, uo, k).Ok? <==> forall i :: 1 <= i <= k ==> TrailerMatches(s, ss, uo, i)
  {
    hide Restored;
    if k > 0 {
      DecodeAccepts(s, ss, uo, k - 1);
      if DecodeUpTo(s, ss, uo, k - 1).Ok? {
        TrailerUntouched(s, ss, uo, k);
        assert DecodeUpTo(s, ss, uo, k).Ok? <==> TrailerMatches(s, ss, uo, k);
      }
    }
  }

  lemma TrailerUntouched(s: Bytes, ss: nat, uo: nat, k: nat)
    requires k >= 1 && Fits(|s|, ss, uo, k)
    requires DecodeUpTo(s, ss, uo, k - 1).Ok?
    ensures DecodeUpTo(s, ss, uo, k - 1).value[Tail(k, ss)..Tail(k, ss) + 2] == s[Tail(k, ss)..Tail(k, ss) + 2]
  {
    var l, t := DecodeUpTo(s, ss, uo, k - 1).value, Tail(k, ss);
    DecodeLater(s, ss, uo, k - 1, k, t);
    DecodeLater(s, ss, uo, k - 1, k, t + 1);
    SameTwo(l, s, t);
  }

  lemma {:induction false} EncodeElse(s: Bytes, ss: nat, uo: nat, q: Bytes, k: nat, n: nat, j: nat)
    requires Fits(|s|, ss, uo, k) && |q| == 2 && j < |s| && k <= n && Free(j, ss, n)
    requires !(uo <= j < uo + 2 * (k + 1))
    ensures EncodeUpTo(s, ss, uo, q, k)[j] == s[j]
  {
    hide Stamped;
    if k > 0 {
      EncodeElse(s, ss, uo, q, k - 1, n, j);
      StampedAt(EncodeUpTo(s, ss, uo, q, k - 1), Tail(k, ss), uo + 2 * k, q, j);
    }
  }

  lemma {:induction false} EncodeLater(s: Bytes, ss: nat, uo: nat, q: Bytes, k: nat, n: nat, i: nat, j: nat)
    requires Fits(|s|, ss, uo, k) && |q| == 2 && k < i <= n && j < |s| && Tail(i, ss) <= j
    requires !(uo <= j < uo + 2 * (n + 1))
    ensures EncodeUpTo(s, ss, uo, q, k)[j] == s[j]
  {
    hide Stamped;
    if k > 0 {
      TailsApart(k, i, ss);
      EncodeLater(s, ss, uo, q, k - 1, n, i, j);
      StampedAt(EncodeUpTo(s, ss, uo, q, k - 1), Tail(k, ss), uo + 2 * k, q, j);
    }
  }

  lemma {:induction false} EncodeTrailer(s: Bytes, ss: nat, uo: nat, q: Bytes, k: nat, n: nat, i: nat, d: nat)
    requires Fits(|s|, ss, uo, k) && ArrayFree(ss, n, uo) && |q| == 2 && 1 <= i <= k <= n && d < 2
    requires Tail(i, ss) + d < |s|
    ensures EncodeUpTo(s, ss, uo, q, k)[Tail(i, ss) + d] == q[d]
  {
    hide Stamped, ArrayFree;
    StampedAt(EncodeUpTo(s, ss, uo, q, k - 1), Tail(k, ss), uo + 2 * k, q, Tail(i, ss) + d);
    if i < k {
      TailsApart(i, k, ss);
      TrailerOutsideArray(i, ss, n, uo, Tail(i, ss) + d);
      EncodeTrailer(s, ss, uo, q, k - 1, n, i, d);
    }
  }

  lemma {:induction false} EncodeEntry(s: Bytes, ss: nat, uo: nat, q: Bytes, k: nat, n: nat, i: nat, d: nat)
    requires Fits(|s|, ss, uo, k) && ArrayFree(ss, n, uo) && |q| == 2 && i <= k <= n && d < 2
    requires i > 0 ==> Tail(i, ss) + d < |s|
    ensures EncodeUpTo(s, ss, uo, q, k)[uo + 2 * i + d] == if i == 0 then q[d] else s[Tail(i, ss) + d]
  {
    hide Stamped, Put;
    EntryOffTrailer(ss, n, uo, k, i, d);
    if k == 0 {
      assert EncodeUpTo(s, ss, uo, q, 0) == Put(s, uo, q);
    } else {
      var p := EncodeUpTo(s, ss, uo, q, k - 1);
      StampedAt(p, Tail(k, ss), uo + 2 * k, q, uo + 2 * i + d);
      if i < k {
        EncodeEntry(s, ss, uo, q, k - 1, n, i, d);
      } else {
        TrailerOutsideArray(k, ss, n, uo, Tail(k, ss) + d);
        EncodeLater(s, ss, uo, q, k - 1, n, k, Tail(k, ss) + d);
      }
    }
  }

  lemma EntryOffTrailer(ss: nat, n: nat, uo: nat, k: nat, i: nat, d: nat)
    requires ss >= 512 && ArrayFree(ss, n, uo) && i <= k <= n && d < 2
    ensures k > 0 ==> !(Tail(k, ss) <= uo + 2 * i + d < Tail(k, ss) + 2)
  {
    assert Free(uo + 2 * i + d, ss, n);
  }

  // ---------- round trip ----------

  /** Byte j lies in the record's fixup array. */
  predicate InArray(s: Bytes, j: int)
    requires |s| >= 8
  {
    U16(s, 4) <= j < U16(s, 4) + 2 * U16(s, 6)
  }

  /** A record whose header is sound and whose fixup array covers no trailer. */
  ghost predicate Protectable(s: Bytes, ss: nat, magic: Bytes) {
    ss >= 512 && HeaderOk(s, ss, magic) && ArrayFree(ss, |s| / ss, U16(s, 4))
  }

  lemma HeaderKept(s: Bytes, ss: nat, magic: Bytes)
    requires Protectable(s, ss, magic)
    ensures var e := EncodeArray(s, ss);
            && e[..8] == s[..8] && Protectable(e, ss, magic)
            && U16(e, 4) == U16(s, 4) && U16(e, 6) == U16(s, 6)
  {
    var e, n := EncodeArray(s, ss), |s| / ss;
    SpanOfLength(|s|, ss);
    forall j | 0 <= j < 8
      ensures e[j] == s[j]
    {
      HeaderFree(j, ss, n);
      EncodeElse(s, ss, U16(s, 4), NextStamp(s), n, n, j);
    }
    assert e[..4] == s[..4];
  }

  lemma HeaderFree(j: nat, ss: nat, n: nat)
    requires ss >= 512 && j < ss - 2
    ensures Free(j, ss, n)
  {
    forall i | 1 <= i <= n
      ensures Tail(i, ss) > j
    {
      SpanMono(1, i, ss);
    }
  }

  lemma EncodedAccepted(s: Bytes, ss: nat, magic: Bytes)
    requires Protectable(s, ss, magic)
    ensures Decode(EncodeArray(s, ss), ss, magic).Ok?
  {
    var e, uo, n, q := EncodeArray(s, ss), U16(s, 4), |s| / ss, NextStamp(s);
    SpanOfLength(|s|, ss);
    HeaderKept(s, ss, magic);
    StampInArray(s, ss, uo, q, n);
    forall i | 1 <= i <= n
      ensures TrailerMatches(e, ss, uo, i)
    {
      StampInTrailer(s, ss, uo, q, n, i);
    }
    DecodeAccepts(e, ss, uo, n);
  }

  lemma TwoBytes(s: Bytes, o: nat, q: Bytes)
    requires |q| == 2 && o + 2 <= |s| && s[o] == q[0] && s[o + 1] == q[1]
    ensures s[o..o + 2] == q
  {
  }

  lemma StampInArray(s: Bytes, ss: nat, uo: nat, q: Bytes, n: nat)
    requires Fits(|s|, ss, uo, n) && ArrayFree(ss, n, uo) && |q| == 2
    ensures EncodeUpTo(s, ss, uo, q, n)[uo..uo + 2] == q
  {
    EncodeEntry(s, ss, uo, q, n, n, 0, 0);
    EncodeEntry(s, ss, uo, q, n, n, 0, 1);
    TwoBytes(EncodeUpTo(s, ss, uo, q, n), uo, q);
  }

  lemma StampInTrailer(s: Bytes, ss: nat, uo: nat, q: Bytes, n: nat, i: nat)
    requires Fits(|s|, ss, uo, n) && ArrayFree(ss, n, uo) && |q| == 2 && 1 <= i <= n
    ensures Tail(i, ss) + 2 <= |s|
    ensures EncodeUpTo(s, ss, uo, q, n)[Tail(i, ss)..Tail(i, ss) + 2] == q
  {
    hide EncodeUpTo;
    SpanMono(i, n, ss);
    EncodeTrailer(s, ss, uo, q, n, n, i, 0);
    EncodeTrailer(s, ss, uo, q, n, n, i, 1);
    TwoBytes(EncodeUpTo(s, ss, uo, q, n), Tail(i, ss), q);
  }

  /** decode_mst undoes encode_mst outside the fixup array. */
  lemma RoundTrip(s: Bytes, ss: nat, magic: Bytes)
    requires Protectable(s, ss, magic)
    ensures var r := Decode(EncodeArray(s, ss), ss, magic);
            r.Ok? && |r.value| == |s| && forall j :: 0 <= j < |s| && !InArray(s, j) ==> r.value[j] == s[j]
  {
    hide DecodeUpTo, EncodeUpTo, NextStamp;
    EncodedAccepted(s, ss, magic);
    HeaderKept(s, ss, magic);
    SpanOfLength(|s|, ss);
    forall j | 0 <= j < |s| && !InArray(s, j)
      ensures Decode(EncodeArray(s, ss), ss, magic).value[j] == s[j]
    {
      var e := EncodeArray(s, ss);
      ThereAndBack(s, e, Decode(e, ss, magic).value, ss, U16(s, 4), NextStamp(s), |s| / ss, j);
    }
  }

  lemma ThereAndBack(s: Bytes, e: Bytes, r: Bytes, ss: nat, uo: nat, q: Bytes, n: nat, j: nat)
    requires Fits(|s|, ss, uo, n) && ArrayFree(ss, n, uo) && |q| == 2 && j < |s|
    requires !(uo <= j < uo + 2 * (n + 1))
    requires e == EncodeUpTo(s, ss, uo, q, n) && DecodeUpTo(e, ss, uo, n) == Ok(r)
    ensures r[j] == s[j]
  {
    hide DecodeUpTo, EncodeUpTo;
    if Free(j, ss, n) {
      EncodeElse(s, ss, uo, q, n, n, j);
      DecodeElse(e, ss, uo, n, n, j);
    } else {
      var i :| 1 <= i <= n && Tail(i, ss) <= j < Tail(i, ss) + 2;
      var d := j - Tail(i, ss);
      EncodeEntry(s, ss, uo, q, n, n, i, d);
      DecodeTrailer(e, ss, uo, n, n, i, d);
    }
  }

  /** When the record is itself an unedited decode, the array comes back too: only
      the two sequence bytes may change. */
  lemma UneditedRoundTrip(raw: Bytes, s: Bytes, ss: nat, magic: Bytes)
    requires Protectable(raw, ss, magic) && Decode(raw, ss, magic) == Ok(s)
    ensures Protectable(s, ss, magic)
    ensures var r := Decode(EncodeArray(s, ss), ss, magic);
            r.Ok? && forall j :: 0 <= j < |s| && !(U16(s, 4) <= j < U16(s, 4) + 2) ==> r.value[j] == s[j]
  {
    DecodedHeader(raw, s, ss, magic);
    RoundTrip(s, ss, magic);
    forall j | 0 <= j < |s| && InArray(s, j) && j >= U16(s, 4) + 2
      ensures Decode(EncodeArray(s, ss), ss, magic).value[j] == s[j]
    {
      UneditedEntry(raw, s, ss, magic, j);
    }
  }

  /** Decoding keeps the header and the array. */
  lemma DecodedHeader(raw: Bytes, s: Bytes, ss: nat, magic: Bytes)
    requires Protectable(raw, ss, magic) && Decode(raw, ss, magic) == Ok(s)
    ensures Protectable(s, ss, magic) && |s| == |raw|
    ensures s[..8] == raw[..8] && U16(s, 4) == U16(raw, 4) && U16(s, 6) == U16(raw, 6)
    ensures forall j :: InArray(s, j) ==> s[j] == raw[j]
  {
    var uo, n := U16(raw, 4), |raw| / ss;
    SpanOfLength(|raw|, ss);
    forall j | 0 <= j < 8
      ensures s[j] == raw[j]
    {
      HeaderFree(j, ss, n);
      DecodeElse(raw, ss, uo, n, n, j);
    }
    forall j | uo <= j < uo + 2 * (n + 1)
      ensures s[j] == raw[j]
    {
      assert Free(j, ss, n);
      DecodeElse(raw, ss, uo, n, n, j);
    }
    assert s[..4] == raw[..4];
  }

  /** Decoding never touches the eight header bytes. */
  lemma HeaderSurvives(raw: Bytes, s: Bytes, ss: nat, magic: Bytes)
    requires ss >= 512 && Decode(raw, ss, magic) == Ok(s)
    ensures |s| == |raw| && s[..8] == raw[..8] && ArrayOk(s, ss)
  {
    var uo, n := U16(raw, 4), |raw| / ss;
    SpanOfLength(|raw|, ss);
    forall j | 0 <= j < 8
      ensures s[j] == raw[j]
    {
      HeaderFree(j, ss, n);
      DecodeElse(raw, ss, uo, n, n, j);
    }
  }

  lemma UneditedEntry(raw: Bytes, s: Bytes, ss: nat, magic: Bytes, j: nat)
    requires Protectable(raw, ss, magic) && Decode(raw, ss, magic) == Ok(s)
    requires U16(raw, 4) + 2 <= j < U16(raw, 4) + 2 * U16(raw, 6)
    requires Protectable(s, ss, magic) && Decode(EncodeArray(s, ss), ss, magic).Ok?
    requires U16(s, 4) == U16(raw, 4) && s[j] == raw[j]
    ensures Decode(EncodeArray(s, ss), ss, magic).value[j] == s[j]
  {
    hide DecodeUpTo, EncodeUpTo, NextStamp;
    var uo, n := U16(raw, 4), |raw| / ss;
    SpanOfLength(|raw|, ss);
    HeaderKept(s, ss, magic);
    var e := EncodeArray(s, ss);
    EntryThereAndBack(raw, s, e, Decode(e, ss, magic).value, ss, uo, NextStamp(s), n, (j - uo) / 2, (j - uo) % 2);
  }

  lemma EntryThereAndBack(raw: Bytes, s: Bytes, e: Bytes, r: Bytes, ss: nat, uo: nat, q: Bytes, n: nat, i: nat, d: nat)
    requires |raw| == |s| && Fits(|s|, ss, uo, n) && ArrayFree(ss, n, uo) && |q| == 2 && 1 <= i <= n && d < 2
    requires DecodeUpTo(raw, ss, uo, n) == Ok(s) && e == EncodeUpTo(s, ss, uo, q, n)
        && DecodeUpTo(e, ss, uo, n) == Ok(r)
    ensures r[uo + 2 * i + d] == raw[uo + 2 * i + d]
  {
    hide DecodeUpTo, EncodeUpTo;
    SpanMono(i, n, ss);
    assert Free(uo + 2 * i + d, ss, n);
    DecodeTrailer(raw, ss, uo, n, n, i, d);
    EncodeEntry(s, ss, uo, q, n, n, i, d);
    DecodeElse(e, ss, uo, n, n, uo + 2 * i + d);
  }

  /** The record with its sequence number blanked, as the fixture builder compares it. */
  function Normalized(s: Bytes): (r: Bytes)
    requires |s| >= 8 && 8 <= U16(s, 4) && U16(s, 4) + 2 <= |s|
    ensures |r| == |s|
  {
    Put(s, U16(s, 4), Zeros(2))
  }

  /** The fixture builder's comparison of two records. */
  predicate SameNormalized(a: Bytes, b: Bytes) {
    && |a| == |b| >= 8 && U16(a, 4) == U16(b, 4) && 8 <= U16(a, 4) && U16(a, 4) + 2 <= |a|
    && Normalized(a) == Normalized(b)
  }

  /** Rewriting an unedited record is invisible to the normalised comparison. */
  lemma RewriteNormalizes(raw: Bytes, s: Bytes, ss: nat, magic: Bytes)
    requires Protectable(raw, ss, magic) && Decode(raw, ss, magic) == Ok(s)
    ensures Protectable(s, ss, magic)
    ensures var r := Decode(EncodeArray(s, ss), ss, magic); r.Ok? && SameNormalized(r.value, s)
  {
    UneditedRoundTrip(raw, s, ss, magic);
    var e := EncodeArray(s, ss);
    HeaderKept(s, ss, magic);
    DecodedHeader(e, Decode(e, ss, magic).value, ss, magic);
  }

  /** A one-sector record whose trailer and array repeat the sequence number is its own decoding. */
  lemma OneSectorDecodes(s: Bytes, ss: nat, magic: Bytes)
    requires ss >= 512 && |s| == ss && HeaderOk(s, ss, magic) && U16(s, 4) + 4 <= ss - 2
    requires s[ss - 2..ss] == s[U16(s, 4)..U16(s, 4) + 2] == s[U16(s, 4) + 2..U16(s, 4) + 4]
    ensures Decode(s, ss, magic) == Ok(s) && Protectable(s, ss, magic)
  {
    var uo := U16(s, 4);
    SpanOfLength(ss, ss);
    SpanIsProduct(1, ss);
    SpanInjective(ss / ss, 1, ss);
    assert DecodeUpTo(s, ss, uo, 0) == Ok(s);
    assert Tail(1, ss) == ss - 2;
    assert Restored(s, ss - 2, uo + 2) == s;
    EarlyArrayFree(ss, 1, uo);
  }

  // ---------- the sequence number of an encoding ----------

  /** One more than the old number, with 0xFFFF followed by 1: in the array and in the last
      two bytes of every sector. */
  predicate CarriesNext(s: Bytes, e: Bytes, ss: nat)
    requires |s| >= 8 && U16(s, 4) + 2 <= |s| == |e| && ss >= 512 && |s| % ss == 0
  {
    var uo := U16(s, 4);
    var n := if U16(s, uo) == 0xFFFF then 1 else U16(s, uo) + 1;
    U16(e, uo) == n && forall i :: 1 <= i <= |s| / ss ==> EndsWith(e, Span(i, ss), n)
  }

  /** The two bytes before `end` are the number n. */
  predicate EndsWith(s: Bytes, end: nat, n: nat) {
    2 <= end <= |s| && U16(s, end - 2) == n
  }

  lemma WordIs(s: Bytes, o: nat, q: nat)
    requires o + 2 <= |s| && q < 0x1_0000 && s[o..o + 2] == ToLe(q, 2)
    ensures U16(s, o) == q
  {
    hide ToLe, FromLe;
    assert Pow256(2) == 256 * (256 * Pow256(0));
    U16IsFromLe(s, o);
    FromLeOfToLe(q, 2);
  }

  /** Both encoders store the next sequence number in the array and in every trailer. */
  lemma SequenceAdvances(s: Bytes, ss: nat)
    requires ss >= 512 && ArrayOk(s, ss) && ArrayFree(ss, |s| / ss, U16(s, 4))
    ensures CarriesNext(s, EncodeArray(s, ss), ss)
  {
    hide EncodeUpTo, ArrayFree, ToLe, EndsWith, Span, U16;
    var uo, n, e := U16(s, 4), |s| / ss, EncodeArray(s, ss);
    SpanOfLength(|s|, ss);
    StampInArray(s, ss, uo, NextStamp(s), n);
    WordIs(e, uo, NextSequence(U16(s, uo)));
    forall i | 1 <= i <= n ensures EndsWith(e, Span(i, ss), NextSequence(U16(s, uo))) { TrailerAdvances(s, ss, i); }
  }

  lemma TrailerAdvances(s: Bytes, ss: nat, i: nat)
    requires ss >= 512 && ArrayOk(s, ss) && ArrayFree(ss, |s| / ss, U16(s, 4)) && 1 <= i <= |s| / ss
    ensures EndsWith(EncodeArray(s, ss), Span(i, ss), NextSequence(U16(s, U16(s, 4))))
  {
    hide EncodeUpTo, ArrayFree, ToLe, U16;
    SpanOfLength(|s|, ss);
    StampInTrailer(s, ss, U16(s, 4), NextStamp(s), |s| / ss, i);
    WordIs(EncodeArray(s, ss), Tail(i, ss), NextSequence(U16(s, U16(s, 4))));
  }

  // ---------- torn writes ----------

  /** What the device holds when sector i is `next` where picks[i - 1] and `prior` elsewhere. */
  ghost predicate IsTorn(prior: Bytes, next: Bytes, mix: Bytes, ss: nat, picks: seq<bool>)
    requires ss >= 512
  {
    && |prior| == |next| == |mix| == Span(|picks|, ss)
    && forall i :: 1 <= i <= |picks| ==> TornSector(prior, next, mix, ss, picks, i)
  }

  predicate TornSector(prior: Bytes, next: Bytes, mix: Bytes, ss: nat, picks: seq<bool>, i: nat)
    requires ss >= 512 && 1 <= i <= |picks|
  {
    SectorIs(mix, if picks[i - 1] then next else prior, ss, i)
  }

  /** Sector i of both records is the same. */
  predicate SectorIs(a: Bytes, b: Bytes, ss: nat, i: nat)
    requires ss >= 512 && i >= 1
  {
    && |a| == |b| && Span(i - 1, ss) + ss <= |a|
    && a[Span(i - 1, ss)..Span(i - 1, ss) + ss] == b[Span(i - 1, ss)..Span(i - 1, ss) + ss]
  }

  lemma SectorByte(a: Bytes, b: Bytes, ss: nat, i: nat, j: nat)
    requires ss >= 512 && i >= 1 && SectorIs(a, b, ss, i)
    requires Span(i - 1, ss) <= j < Span(i - 1, ss) + ss
    ensures a[j] == b[j]
  {
    var o := Span(i - 1, ss);
    assert a[o..o + ss][j - o] == a[j] && b[o..o + ss][j - o] == b[j];
  }

  /** An edit that kept the header and the sequence number of the record. */
  predicate EditKeepsFrame(s: Bytes, edited: Bytes)
    requires |s| >= 8 && U16(s, 4) + 2 <= |s|
  {
    && |edited| == |s| && edited[..8] == s[..8]
    && edited[U16(s, 4)..U16(s, 4) + 2] == s[U16(s, 4)..U16(s, 4) + 2]
  }

  lemma StampChanges(s: Bytes, edited: Bytes)
    requires |s| >= 8 && U16(s, 4) + 2 <= |s| && EditKeepsFrame(s, edited)
    ensures U16(edited, 4) == U16(s, 4)
    ensures NextStamp(edited) != s[U16(s, 4)..U16(s, 4) + 2]
  {
    var uo := U16(s, 4);
    assert edited[..8][4] == s[..8][4] && edited[..8][5] == s[..8][5];
    var q := U16(edited, uo);
    U16IsFromLe(edited, uo);
    assert Pow256(2) == 256 * (256 * Pow256(0));
    FromLeOfToLe(NextSequence(q), 2);
  }

  /** Every trailer of an accepted record carries its sequence number. */
  lemma AcceptedTrailer(s: Bytes, ss: nat, magic: Bytes, i: nat)
    requires ss >= 512 && Decode(s, ss, magic).Ok? && 1 <= i <= |s| / ss
    ensures |s| >= 8 && U16(s, 4) + 2 <= |s| && TrailerMatches(s, ss, U16(s, 4), i)
  {
    SpanOfLength(|s|, ss);
    DecodeAccepts(s, ss, U16(s, 4), |s| / ss);
  }

  lemma EarlyArrayFree(ss: nat, n: nat, uo: nat)
    requires ss >= 512 && uo + 2 * (n + 1) <= ss - 2
    ensures ArrayFree(ss, n, uo)
  {
    forall j: nat | uo <= j < uo + 2 * (n + 1)
      ensures Free(j, ss, n)
    {
      HeaderFree(j, ss, n);
    }
  }

  lemma TrailerOf(a: Bytes, b: Bytes, ss: nat, i: nat)
    requires ss >= 512 && i >= 1 && SectorIs(a, b, ss, i)
    ensures Tail(i, ss) + 2 <= |a| == |b|
    ensures a[Tail(i, ss)..Tail(i, ss) + 2] == b[Tail(i, ss)..Tail(i, ss) + 2]
  {
    var t := Tail(i, ss);
    SectorByte(a, b, ss, i, t);
    SectorByte(a, b, ss, i, t + 1);
  }

  lemma FrontOf(a: Bytes, b: Bytes, ss: nat, lo: nat, hi: nat)
    requires ss >= 512 && SectorIs(a, b, ss, 1) && lo <= hi <= ss
    ensures hi <= |a| == |b| && a[lo..hi] == b[lo..hi]
  {
    forall j | lo <= j < hi
      ensures a[j] == b[j]
    {
      SectorByte(a, b, ss, 1, j);
    }
  }

  lemma {:induction false} AllSectors(a: Bytes, b: Bytes, ss: nat, n: nat)
    requires ss >= 512 && |a| == |b| && Span(n, ss) <= |a|
    requires forall i :: 1 <= i <= n ==> SectorIs(a, b, ss, i)
    ensures a[..Span(n, ss)] == b[..Span(n, ss)]
  {
    if n > 0 {
      AllSectors(a, b, ss, n - 1);
      var o := Span(n - 1, ss);
      assert SectorIs(a, b, ss, n);
      assert a[..o + ss] == a[..o] + a[o..o + ss] && b[..o + ss] == b[..o] + b[o..o + ss];
    }
  }

  /** The two records a torn write can mix: what their first sectors share, and
      the sequence number of each. */
  lemma TornFrames(prior: Bytes, s: Bytes, edited: Bytes, ss: nat, magic: Bytes)
    requires ss >= 512 && Decode(prior, ss, magic) == Ok(s)
    requires U16(prior, 4) + 2 * U16(prior, 6) <= ss - 2
    requires |s| >= 8 && U16(s, 4) + 2 <= |s| && EditKeepsFrame(s, edited)
    ensures Protectable(prior, ss, magic) && Protectable(edited, ss, magic)
    ensures U16(s, 4) == U16(prior, 4) == U16(edited, 4)
    ensures var e, uo := EncodeArray(edited, ss), U16(prior, 4);
            && e[..8] == prior[..8]
            && e[uo..uo + 2] == NextStamp(edited) != prior[uo..uo + 2]
            && (forall i :: 1 <= i <= |prior| / ss ==> TrailerMatches(e, ss, uo, i))
  {
    hide DecodeUpTo, EncodeUpTo, NextStamp;
    var uo, n := U16(prior, 4), |prior| / ss;
    EarlyArrayFree(ss, n, uo);
    DecodedHeader(prior, s, ss, magic);
    assert forall j :: uo <= j < uo + 2 ==> InArray(s, j);
    assert s[uo..uo + 2] == prior[uo..uo + 2];
    assert edited[..4] == edited[..8][..4] == s[..8][..4] == s[..4];
    StampChanges(s, edited);
    assert U16(edited, 6) == U16(s, 6) by { assert edited[..8][6] == s[..8][6] && edited[..8][7] == s[..8][7]; }
    HeaderKept(edited, ss, magic);
    SpanOfLength(|edited|, ss);
    StampInArray(edited, ss, uo, NextStamp(edited), n);
    forall i | 1 <= i <= n
      ensures TrailerMatches(EncodeArray(edited, ss), ss, uo, i)
    {
      StampInTrailer(edited, ss, uo, NextStamp(edited), n, i);
    }
  }

  /** With the array inside the first sector ahead of its trailer, a torn write of
      an edited record is either complete, absent, or rejected by decode_mst. */
  lemma TornWriteDetected(prior: Bytes, s: Bytes, edited: Bytes, mix: Bytes, ss: nat, magic: Bytes, picks: seq<bool>)
    requires ss >= 512 && Decode(prior, ss, magic) == Ok(s)
    requires U16(prior, 4) + 2 * U16(prior, 6) <= ss - 2
    requires |s| >= 8 && U16(s, 4) + 2 <= |s| && EditKeepsFrame(s, edited) && ArrayOk(edited, ss)
    requires IsTorn(prior, EncodeArray(edited, ss), mix, ss, picks)
    requires Decode(mix, ss, magic).Ok?
    ensures || ((forall i :: 0 <= i < |picks| ==> !picks[i]) && mix == prior)
            || ((forall i :: 0 <= i < |picks| ==> picks[i]) && mix == EncodeArray(edited, ss))
  {
    hide Decode, EncodeArray, NextStamp;
    var e := EncodeArray(edited, ss);
    TornFrames(prior, s, edited, ss, magic);
    SpanOfLength(|prior|, ss);
    SpanInjective(|picks|, |prior| / ss, ss);
    var first := if picks[0] then e else prior;
    forall i | 0 <= i < |picks|
      ensures picks[i] == picks[0]
    {
      assert TornSector(prior, e, mix, ss, picks, 1) && TornSector(prior, e, mix, ss, picks, i + 1);
      TornPicksAgree(prior, e, mix, ss, magic, picks, i + 1);
    }
    forall i | 1 <= i <= |picks|
      ensures SectorIs(mix, first, ss, i)
    {
      assert TornSector(prior, e, mix, ss, picks, i) && picks[i - 1] == picks[0];
    }
    WholeRecord(mix, first, ss, |picks|);
  }

  lemma WholeRecord(a: Bytes, b: Bytes, ss: nat, n: nat)
    requires ss >= 512 && |a| == |b| == Span(n, ss)
    requires forall i :: 1 <= i <= n ==> SectorIs(a, b, ss, i)
    ensures a == b
  {
    AllSectors(a, b, ss, n);
    assert a[..|a|] == a && b[..|b|] == b;
  }

  /** The trailer of sector i cannot come from one write and the first sector from the other. */
  lemma TornPicksAgree(prior: Bytes, e: Bytes, mix: Bytes, ss: nat, magic: Bytes, picks: seq<bool>, i: nat)
    requires ss >= 512 && Decode(prior, ss, magic).Ok? && Decode(mix, ss, magic).Ok?
    requires |prior| == |e| == |mix| && 1 <= i <= |picks| && i <= |mix| / ss
    requires |prior| >= ss && U16(prior, 4) + 2 <= ss && e[..8] == prior[..8]
    requires e[U16(prior, 4)..U16(prior, 4) + 2] != prior[U16(prior, 4)..U16(prior, 4) + 2]
    requires TrailerMatches(e, ss, U16(prior, 4), i)
    requires TornSector(prior, e, mix, ss, picks, 1) && TornSector(prior, e, mix, ss, picks, i)
    ensures picks[i - 1] == picks[0]
  {
    var uo := U16(prior, 4);
    var first := if picks[0] then e else prior;
    FrontOf(mix, first, ss, 0, 8);
    assert mix[0..8] == mix[..8] && first[0..8] == first[..8] == prior[..8];
    assert U16(mix, 4) == uo by { assert mix[..8][4] == prior[..8][4] && mix[..8][5] == prior[..8][5]; }
    FrontOf(mix, first, ss, uo, uo + 2);
    AcceptedTrailer(mix, ss, magic, i);
    AcceptedTrailer(prior, ss, magic, i);
    TrailerOf(mix, if picks[i - 1] then e else prior, ss, i);
  }
}
