/** The fixture builder's view of a FILE record: the attribute chain, the search for an
    attribute, and the in-place replacement of one attribute's mapping pairs. */
module FixtureRecords {
  import opened Bytes
  import opened Runlist
  import FR = FileRecords

  /** What an attribute's own bytes say. */
  datatype Body = Body(typeCode: nat, name: Bytes, nonresident: bool, flags: nat, lowestVcn: nat,
                       mapping: nat, dataSize: nat, runs: seq<Run>, value: Bytes)

  datatype Attr = Attr(offset: nat, length: nat, body: Body)

  /** Compressed or sparse. */
  predicate Packed(flags: nat) {
    flags % 2 == 1 || flags >= 0x8000
  }

  function NameOf(s: Bytes): (r: Result<Bytes>)
    requires |s| >= 24
  {
    var length, offset := s[9], U16(s, 10);
    if length == 0 then Ok([])
    else if offset < 24 || offset + length as int * 2 > |s| then Err
    else Ok(s[offset..offset + length as int * 2])
  }

  /** The body of a nonresident attribute. */
  function MappedBody(s: Bytes, name: Bytes): (r: Result<Body>)
    requires |s| >= 24
    ensures r.Ok? ==> r.value.nonresident && 64 <= r.value.mapping < |s| && |r.value.runs| > 0
  {
    if |s| < 64 then Err
    else
      var mapping, flags := U16(s, 32), U16(s, 12);
      if mapping < 64 || mapping >= |s| || (Packed(flags) && |s| < 72) then Err
      else
        match Runs(s[mapping..], U64(s, 16), false)
        case Err => Err
        case Ok(runs) => Ok(Body(U32(s, 0), name, true, flags, U64(s, 16), mapping, U64(s, 48), runs, []))
  }

  /** The body of a resident attribute. */
  function ResidentBody(s: Bytes, name: Bytes): (r: Result<Body>)
    requires |s| >= 24
    ensures r.Ok? ==> !r.value.nonresident && r.value.runs == []
  {
    var length, offset := U32(s, 16), U16(s, 20);
    if offset < 24 || offset + length > |s| then Err
    else Ok(Body(U32(s, 0), name, false, U16(s, 12), 0, 0, length, [], s[offset..offset + length]))
  }

  function BodyOf(s: Bytes): (r: Result<Body>)
    requires |s| >= 24
    ensures r.Ok? && r.value.nonresident ==> 64 <= r.value.mapping < |s| && |r.value.runs| > 0
    ensures r.Ok? && !r.value.nonresident ==> r.value.runs == []
  {
    match NameOf(s)
    case Err => Err
    case Ok(name) => if s[8] != 0 then MappedBody(s, name) else ResidentBody(s, name)
  }

  /** A mapped attribute has pairs inside it and at least one run. */
  predicate SoundBody(a: Attr) {
    if a.body.nonresident then 64 <= a.body.mapping < a.length && |a.body.runs| > 0 else a.body.runs == []
  }

  /** One turn of the generator: the attribute at an offset that is not the end marker. */
  function AttrAt(record: Bytes, offset: nat): (r: Result<Attr>)
    ensures r.Ok? ==> r.value.offset == offset && 24 <= r.value.length && offset + r.value.length <= |record|
    ensures r.Ok? ==> SoundBody(r.value)
  {
    if offset + 24 > |record| then Err
    else
      var length := U32(record, offset + 4);
      if length < 24 || offset + length > |record| then Err
      else
        match BodyOf(record[offset..offset + length])
        case Err => Err
        case Ok(body) => Ok(Attr(offset, length, body))
  }

  /** All attributes from an offset to the end marker. */
  function Chain(record: Bytes, offset: nat): (r: Result<seq<Attr>>)
    decreases |record| - offset
  {
    if offset + 4 > |record| then Err
    else if U32(record, offset) == FR.AT_END then Ok([])
    else
      match AttrAt(record, offset)
      case Err => Err
      case Ok(a) =>
        match Chain(record, offset + a.length)
        case Err => Err
        case Ok(more) => Ok([a] + more)
  }

  function First(record: Bytes): nat
    requires |record| >= 28
  {
    U16(record, 20)
  }

  predicate Is(a: Attr, typeCode: nat, name: Bytes) {
    a.body.typeCode == typeCode && a.body.name == name
  }

  /** find_attribute: the generator stops at the first match. */
  function FindFrom(record: Bytes, offset: nat, typeCode: nat, name: Bytes): (r: Result<Attr>)
    ensures r.Ok? ==> Is(r.value, typeCode, name) && 24 <= r.value.length && r.value.offset + r.value.length <= |record|
    ensures r.Ok? ==> SoundBody(r.value)
    decreases |record| - offset
  {
    if offset + 4 > |record| || U32(record, offset) == FR.AT_END then Err
    else
      match AttrAt(record, offset)
      case Err => Err
      case Ok(a) => if Is(a, typeCode, name) then Ok(a) else FindFrom(record, offset + a.length, typeCode, name)
  }

  lemma FindTurn(record: Bytes, offset: nat, typeCode: nat, name: Bytes)
    ensures var r := FindFrom(record, offset, typeCode, name);
            if offset + 4 > |record| || U32(record, offset) == FR.AT_END || AttrAt(record, offset).Err? then r == Err
            else
              var a := AttrAt(record, offset).value;
              r == if Is(a, typeCode, name) then Ok(a) else FindFrom(record, offset + a.length, typeCode, name)
  {
    hide AttrAt, Is, U32;
  }

  method FindAttribute(record: Bytes, typeCode: nat, name: Bytes) returns (r: Result<Attr>)
    requires |record| >= 28
    ensures r == FindFrom(record, First(record), typeCode, name)
  {
    hide AttrAt, FindFrom, Is, U32, SoundBody;
    var offset: nat := First(record);
    while offset + 4 <= |record|
      invariant FindFrom(record, First(record), typeCode, name) == FindFrom(record, offset, typeCode, name)
      decreases |record| - offset
    {
      FindTurn(record, offset, typeCode, name);
      if U32(record, offset) == FR.AT_END { return Err; }
      var a := AttrAt(record, offset);
      if a.Err? { return Err; }
      if Is(a.value, typeCode, name) { return a; }
      offset := offset + a.value.length;
    }
    FindTurn(record, offset, typeCode, name);
    r := Err;
  }

  /** The position of the first unnamed DATA attribute. */
  function DataIndex(chain: seq<Attr>): (r: Option<nat>)
    ensures r.Some? ==> r.value < |chain| && Is(chain[r.value], FR.AT_DATA, [])
  {
    if chain == [] then None
    else if Is(chain[0], FR.AT_DATA, []) then Some(0)
    else
      match DataIndex(chain[1..])
      case None => None
      case Some(i) => Some(i + 1)
  }

  /** On a sound chain the search finds the first match of the whole list. */
  lemma {:induction false} FindInChain(record: Bytes, offset: nat)
    requires Chain(record, offset).Ok?
    ensures var chain := Chain(record, offset).value;
            FindFrom(record, offset, FR.AT_DATA, [])
            == match DataIndex(chain) case None => Err case Some(i) => Ok(chain[i])
    decreases |record| - offset
  {
    hide AttrAt, Is, U32, FindFrom, SoundBody;
    FindTurn(record, offset, FR.AT_DATA, []);
    if U32(record, offset) != FR.AT_END {
      var a := AttrAt(record, offset).value;
      FindInChain(record, offset + a.length);
      var more := Chain(record, offset + a.length).value;
      assert ([a] + more)[1..] == more;
    }
  }

  // ---------- the end of the chain ----------

  /** The walk of attribute_end_offset from a cursor. */
  function EndFrom(record: Bytes, used: nat, cursor: nat): (r: Result<nat>)
    requires used <= |record|
    ensures r.Ok? ==> cursor <= r.value && r.value + 4 <= used && U32(record, r.value) == FR.AT_END
    decreases used - cursor
  {
    if cursor + 4 > used then Err
    else if U32(record, cursor) == FR.AT_END then Ok(cursor)
    else if cursor + 8 > used then Err
    else
      var length := U32(record, cursor + 4);
      if length < 24 || cursor + length > used then Err else EndFrom(record, used, cursor + length)
  }

  function EndOffset(record: Bytes): (r: Result<(nat, nat)>)
    requires |record| >= 28
    ensures r.Ok? ==> r.value.0 + 4 <= r.value.1 <= |record| && U32(record, r.value.0) == FR.AT_END
    ensures r.Ok? ==> First(record) <= r.value.0
  {
    var used, first := U32(record, 24), First(record);
    if first < 24 || used > |record| || first + 4 > used then Err
    else
      match EndFrom(record, used, first)
      case Err => Err
      case Ok(end) => Ok((end, used))
  }

  method AttributeEndOffset(record: Bytes) returns (r: Result<(nat, nat)>)
    requires |record| >= 28
    ensures r == EndOffset(record)
  {
    var used: nat, cursor: nat := U32(record, 24), U16(record, 20);
    if cursor < 24 || used > |record| || cursor + 4 > used { return Err; }
    while cursor + 4 <= used
      invariant EndFrom(record, used, First(record)) == EndFrom(record, used, cursor)
      decreases used - cursor
    {
      if U32(record, cursor) == FR.AT_END { return Ok((cursor, used)); }
      if cursor + 8 > used { return Err; }
      var length := U32(record, cursor + 4);
      if length < 24 || cursor + length > used { return Err; }
      cursor := cursor + length;
    }
    r := Err;
  }

  // ---------- replacing the mapping pairs ----------

  function End(a: Attr): nat { a.offset + a.length }

  function Pairs(a: Attr): nat { a.offset + a.body.mapping }

  /** The mapping region blanked and the pairs written at its head. */
  function Placed(record: Bytes, from: nat, end: nat, encoded: Bytes): (r: Bytes)
    requires from + |encoded| <= end <= |record|
    ensures |r| == |record|
  {
    Put(Put(record, from, Zeros(end - from)), from, encoded)
  }

  /** Whole eight-byte steps that make room for n more bytes. */
  function Extra(n: nat): (e: nat)
    ensures n <= e < n + 8 && e % 8 == 0
  {
    ((n + 7) / 8) * 8
  }

  /** The tail from the end marker moved up, the gap blanked, both length fields raised. */
  function Grown(record: Bytes, a: Attr, used: nat, extra: nat): (r: Bytes)
    requires 28 <= |record| < 0x1_0000_0000 && a.offset + 24 <= End(a) <= used && used + extra <= |record|
    ensures |r| == |record|
  {
    var moved := Put(record, End(a) + extra, record[End(a)..used]);
    var blanked := Put(moved, End(a), Zeros(extra));
    var resized := Put(blanked, a.offset + 4, ToLe(a.length + extra, 4));
    Put(resized, 24, ToLe(used + extra, 4))
  }

  /** The record with an attribute's pairs replaced, grown when they do not fit. */
  function Replaced(record: Bytes, a: Attr, encoded: Bytes): (r: Result<Bytes>)
    requires 28 <= |record| < 0x1_0000_0000 && a.offset + 24 <= End(a) <= |record| && Pairs(a) <= End(a)
    ensures r.Ok? ==> |r.value| == |record|
  {
    var capacity := End(a) - Pairs(a);
    if |encoded| <= capacity then Ok(Placed(record, Pairs(a), End(a), encoded))
    else
      match EndOffset(record)
      case Err => Err
      case Ok(pair) =>
        var atEnd, used := pair.0, pair.1;
        var extra := Extra(|encoded| - capacity);
        if atEnd != End(a) || used + extra > |record| then Err
        else Ok(Placed(Grown(record, a, used, extra), Pairs(a), End(a) + extra, encoded))
  }

  /** The record edit of ensure_fragmented_data. */
  method ReplacePairs(record: Bytes, a: Attr, encoded: Bytes) returns (r: Result<Bytes>)
    requires 28 <= |record| < 0x1_0000_0000 && a.offset + 24 <= End(a) <= |record| && Pairs(a) <= End(a)
    ensures r == Replaced(record, a, encoded)
  {
    hide Placed, Grown, EndOffset, U32;
    var attributeEnd: nat := a.offset + a.length;
    var mappingOffset: nat := a.offset + a.body.mapping;
    var capacity: nat := attributeEnd - mappingOffset;
    if |encoded| <= capacity {
      var edited := PlacePairs(record, mappingOffset, attributeEnd, encoded);
      return Ok(edited);
    }
    var found := AttributeEndOffset(record);
    if found.Err? { return Err; }
    var atEnd, used := found.value.0, found.value.1;
    if atEnd != attributeEnd { return Err; }
    var extra: nat := ((|encoded| - capacity + 7) / 8) * 8;
    assert extra == Extra(|encoded| - capacity);
    if used + extra > |record| { return Err; }
    var grown := GrowAttribute(record, a, used, extra);
    var edited := PlacePairs(grown, mappingOffset, attributeEnd + extra, encoded);
    return Ok(edited);
  }

  method PlacePairs(record: Bytes, from: nat, end: nat, encoded: Bytes) returns (edited: Bytes)
    requires from + |encoded| <= end <= |record|
    ensures edited == Placed(record, from, end, encoded)
  {
    edited := Put(record, from, Zeros(end - from));
    edited := Put(edited, from, encoded);
  }

  method GrowAttribute(record: Bytes, a: Attr, used: nat, extra: nat) returns (edited: Bytes)
    requires 28 <= |record| < 0x1_0000_0000 && a.offset + 24 <= End(a) <= used && used + extra <= |record|
    ensures edited == Grown(record, a, used, extra)
  {
    hide Put, Zeros, ToLe;
    edited := Put(record, End(a) + extra, record[End(a)..used]);
    edited := Put(edited, End(a), Zeros(extra));
    edited := Put(edited, a.offset + 4, ToLe(a.length + extra, 4));
    edited := Put(edited, 24, ToLe(used + extra, 4));
  }
}
