/** FILE records: the attribute chain, and the places where the three cached
    copies of the journal's flags live. */
module FileRecords {
  import opened Bytes

  const AT_END := 0xFFFF_FFFF
  const AT_STANDARD_INFORMATION := 0x10
  const AT_ATTRIBUTE_LIST := 0x20
  const AT_FILE_NAME := 0x30
  const AT_DATA := 0x80
  const AT_INDEX_ROOT := 0x90
  const AT_INDEX_ALLOCATION := 0xA0
  const AT_BITMAP := 0xB0
  const EXTEND_RECORD := 11

  /** "$RootHealth" in UTF-16LE */
  const ROOT_HEALTH: Bytes :=
    [0x24, 0, 0x52, 0, 0x6F, 0, 0x6F, 0, 0x74, 0, 0x48, 0, 0x65, 0, 0x61, 0, 0x6C, 0, 0x74, 0, 0x68, 0]
  /** "$I30" in UTF-16LE */
  const I30: Bytes := [0x24, 0, 0x49, 0, 0x33, 0, 0x30, 0]

  /** The header fields of an attribute; its bytes stay in the record. */
  datatype Attribute = Attribute(typeCode: nat, offset: nat, length: nat, nonresident: bool,
                                 nameLength: nat, nameOffset: nat, flags: nat)

  predicate Inside(a: Attribute, size: nat) {
    && 24 <= a.length && a.offset + a.length <= size
    && (a.nameLength > 0 ==> 16 <= a.nameOffset && a.nameOffset + a.nameLength * 2 <= a.length)
  }

  function Name(fixed: Bytes, a: Attribute): Bytes
    requires Inside(a, |fixed|)
  {
    if a.nameLength == 0 then []
    else fixed[a.offset + a.nameOffset..a.offset + a.nameOffset + a.nameLength * 2]
  }

  /** The attribute whose header starts at the cursor. */
  function HeaderAt(fixed: Bytes, used: nat, cursor: nat): (r: Result<Attribute>)
    requires cursor + 4 <= used <= |fixed|
    ensures r.Ok? ==> Inside(r.value, used) && r.value.offset == cursor
  {
    if cursor + 16 > used then Err
    else
      var length := U32(fixed, cursor + 4);
      if length < 24 || length % 8 != 0 || cursor + length > used then Err
      else if fixed[cursor + 8] > 1 then Err
      else
        var nameLength, nameOffset := fixed[cursor + 9], U16(fixed, cursor + 10);
        if nameLength > 0 && (nameOffset < 16 || nameOffset + nameLength as int * 2 > length) then Err
        else Ok(Attribute(U32(fixed, cursor), cursor, length, fixed[cursor + 8] == 1,
                          nameLength, nameOffset, U16(fixed, cursor + 12)))
  }

  /** The attributes from the cursor to the end marker. */
  function ParseFrom(fixed: Bytes, used: nat, cursor: nat): (r: Result<seq<Attribute>>)
    requires used <= |fixed|
    decreases used - cursor
  {
    if cursor + 4 > used then Err
    else if U32(fixed, cursor) == AT_END then Ok([])
    else
      match HeaderAt(fixed, used, cursor)
      case Err => Err
      case Ok(a) =>
        match ParseFrom(fixed, used, cursor + a.length)
        case Err => Err
        case Ok(more) => Ok([a] + more)
  }

  function First(fixed: Bytes): nat
    requires |fixed| >= 48
  {
    U16(fixed, 20)
  }

  function Used(fixed: Bytes): nat
    requires |fixed| >= 48
  {
    U32(fixed, 24)
  }

  function Attributes(fixed: Bytes): (r: Result<seq<Attribute>>)
    requires |fixed| >= 48
  {
    if First(fixed) < 48 || Used(fixed) > |fixed| || First(fixed) >= Used(fixed) then Err
    else ParseFrom(fixed, Used(fixed), First(fixed))
  }

  /** parse_attributes of the validator. */
  method ParseAttributes(fixed: Bytes) returns (r: Result<seq<Attribute>>)
    requires |fixed| >= 48
    ensures r == Attributes(fixed)
  {
    hide HeaderAt, ParseFrom;
    var first, used := U16(fixed, 20), U32(fixed, 24);
    if first < 48 || used > |fixed| || first >= used { return Err; }
    var attributes: seq<Attribute>, cursor: nat := [], first;
    NoAttributes(ParseFrom(fixed, used, first));
    while cursor + 4 <= used
      invariant ParseFrom(fixed, used, first) == WithAttributes(attributes, ParseFrom(fixed, used, cursor))
      decreases used - cursor
    {
      ParseTurn(fixed, used, cursor, attributes);
      if U32(fixed, cursor) == AT_END { return Ok(attributes); }
      var header := HeaderAt(fixed, used, cursor);
      if header.Err? { return Err; }
      attributes := attributes + [header.value];
      cursor := cursor + header.value.length;
    }
    ParseTurn(fixed, used, cursor, attributes);
    r := Err;
  }

  function WithAttributes(attributes: seq<Attribute>, r: Result<seq<Attribute>>): Result<seq<Attribute>> {
    if r.Err? then Err else Ok(attributes + r.value)
  }

  lemma NoAttributes(r: Result<seq<Attribute>>)
    ensures WithAttributes([], r) == r
  {
    if r.Ok? {
      assert [] + r.value == r.value;
    }
  }

  lemma ParseTurn(fixed: Bytes, used: nat, cursor: nat, attributes: seq<Attribute>)
    requires used <= |fixed|
    ensures var all := WithAttributes(attributes, ParseFrom(fixed, used, cursor));
            if cursor + 4 > used then all == Err
            else if U32(fixed, cursor) == AT_END then all == Ok(attributes)
            else
              var header := HeaderAt(fixed, used, cursor);
              if header.Err? then all == Err
              else all == WithAttributes(attributes + [header.value],
                  ParseFrom(fixed, used, cursor + header.value.length))
  {
    hide HeaderAt;
    assert attributes + [] == attributes;
    if cursor + 4 <= used && U32(fixed, cursor) != AT_END && HeaderAt(fixed, used, cursor).Ok? {
      var a := HeaderAt(fixed, used, cursor).value;
      var more := ParseFrom(fixed, used, cursor + a.length);
      if more.Ok? {
        assert attributes + ([a] + more.value) == attributes + [a] + more.value;
      }
    }
  }

  // ---------- the chain as intervals ----------

  /** Attributes follow one another without gap or overlap. */
  lemma {:induction false} ParsedInOrder(fixed: Bytes, used: nat, cursor: nat, i: nat)
    requires used <= |fixed| && ParseFrom(fixed, used, cursor).Ok? && i < |ParseFrom(fixed, used, cursor).value|
    ensures var a := ParseFrom(fixed, used, cursor).value[i];
            Inside(a, used) && cursor <= a.offset && (i > 0 ==> cursor + 24 <= a.offset)
    decreases used - cursor
  {
    hide HeaderAt;
    if i > 0 {
      ParsedInOrder(fixed, used, cursor + HeaderAt(fixed, used, cursor).value.length, i - 1);
    }
  }

  /** Bytes on which two records agree parse alike. */
  lemma HeaderAgrees(a: Bytes, b: Bytes, used: nat, cursor: nat)
    requires cursor + 4 <= used <= |a| && |a| == |b|
    requires Agree(a, b, cursor, if cursor + 16 <= used then cursor + 16 else cursor + 4)
    ensures U32(a, cursor) == U32(b, cursor) && HeaderAt(a, used, cursor) == HeaderAt(b, used, cursor)
  {
  }

  lemma {:induction false} ParseAgrees(a: Bytes, b: Bytes, used: nat, cursor: nat)
    requires used <= |a| && |a| == |b| && Agree(a, b, cursor, used)
    ensures ParseFrom(a, used, cursor) == ParseFrom(b, used, cursor)
    decreases used - cursor
  {
    hide HeaderAt;
    if cursor + 4 <= used {
      HeaderAgrees(a, b, used, cursor);
      if HeaderAt(a, used, cursor).Ok? {
        ParseAgrees(a, b, used, cursor + HeaderAt(a, used, cursor).value.length);
      }
    }
  }

  /** Four bytes past the 24-byte header of an attribute. */
  predicate InBody(a: Attribute, m: nat) {
    a.offset + 24 <= m && m + 4 <= a.offset + a.length
  }

  /** Rewriting four bytes in the body of one attribute leaves the parse alone. */
  lemma {:induction false} ParseSurvivesEdit(a: Bytes, b: Bytes, used: nat, cursor: nat, t: nat, m: nat)
    requires used <= |a| && |a| == |b|
    requires ParseFrom(a, used, cursor).Ok? && t < |ParseFrom(a, used, cursor).value|
    requires InBody(ParseFrom(a, used, cursor).value[t], m)
    requires forall j :: cursor <= j < |a| && !(m <= j < m + 4) ==> a[j] == b[j]
    ensures ParseFrom(b, used, cursor) == ParseFrom(a, used, cursor)
    decreases used - cursor
  {
    hide HeaderAt;
    var h := HeaderAt(a, used, cursor).value;
    ParsedInOrder(a, used, cursor, t);
    HeaderAgrees(a, b, used, cursor);
    if t == 0 {
      ParseAgrees(a, b, used, cursor + h.length);
    } else {
      ParseSurvivesEdit(a, b, used, cursor + h.length, t - 1, m);
    }
  }
}
