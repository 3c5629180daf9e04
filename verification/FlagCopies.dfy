/** Where the three cached copies of the journal's flags are: $STANDARD_INFORMATION
    and $FILE_NAME in the journal's record, and the key in $Extend's $I30 root. */
module FlagCopies {
  import opened Bytes
  import opened FileRecords

  // ---------- resident values ----------

  function ValueLength(fixed: Bytes, a: Attribute): nat
    requires Inside(a, |fixed|)
  {
    U32(fixed, a.offset + 16)
  }

  /** attribute_value_start: the record offset of a resident value. */
  function ValueStart(fixed: Bytes, a: Attribute): (r: Result<nat>)
    requires Inside(a, |fixed|)
    ensures r.Ok? ==> a.offset + 24 <= r.value && r.value + ValueLength(fixed, a) <= a.offset + a.length
  {
    var valueOffset := U16(fixed, a.offset + 20);
    if a.nonresident || valueOffset < 24 || valueOffset + ValueLength(fixed, a) > a.length then Err
    else Ok(a.offset + valueOffset)
  }

  /** Whether a resident $FILE_NAME is $RootHealth in $Extend; malformed names raise. */
  function IsJournalName(fixed: Bytes, a: Attribute): (r: Result<bool>)
    requires Inside(a, |fixed|)
    ensures r.Ok? ==> ValueStart(fixed, a).Ok? && ValueLength(fixed, a) >= 66
  {
    match ValueStart(fixed, a)
    case Err => Err
    case Ok(v) =>
      if ValueLength(fixed, a) < 66 then Err
      else
        var n := fixed[v + 64] as int * 2;
        if 66 + n > ValueLength(fixed, a) then Err
        else Ok(fixed[v + 66..v + 66 + n] == ROOT_HEALTH && U64(fixed, v) % 0x1_0000_0000_0000 == EXTEND_RECORD)
  }

  predicate AllInside(attrs: seq<Attribute>, size: nat) {
    forall i :: 0 <= i < |attrs| ==> Inside(attrs[i], size)
  }

  /** The unnamed attributes of a type, in order. */
  function Unnamed(attrs: seq<Attribute>, typeCode: nat): (r: seq<Attribute>)
    ensures forall i :: 0 <= i < |r| ==> r[i] in attrs && r[i].typeCode == typeCode && r[i].nameLength == 0
  {
    if attrs == [] then []
    else if attrs[0].typeCode == typeCode && attrs[0].nameLength == 0 then [attrs[0]] + Unnamed(attrs[1..], typeCode)
    else Unnamed(attrs[1..], typeCode)
  }

  /** The resident $FILE_NAME attributes that name the journal. */
  function JournalNames(fixed: Bytes, attrs: seq<Attribute>): (r: Result<seq<Attribute>>)
    requires AllInside(attrs, |fixed|)
    ensures r.Ok? ==> forall i :: 0 <= i < |r.value| ==>
        r.value[i] in attrs && r.value[i].typeCode == AT_FILE_NAME
        && Inside(r.value[i], |fixed|) && IsJournalName(fixed, r.value[i]).Ok?
  {
    if attrs == [] then Ok([])
    else
      var more := JournalNames(fixed, attrs[1..]);
      if attrs[0].typeCode != AT_FILE_NAME || attrs[0].nonresident then more
      else
        match IsJournalName(fixed, attrs[0])
        case Err => Err
        case Ok(yes) => if more.Err? then Err else Ok((if yes then [attrs[0]] else []) + more.value)
  }

  datatype Fields = Fields(standard: nat, fileName: nat)

  /** journal_record_flag_offsets: where the record keeps its two copies. */
  function FlagOffsets(fixed: Bytes): (r: Result<Fields>)
    requires |fixed| >= 48
    ensures r.Ok? ==> r.value.standard + 4 <= |fixed| && r.value.fileName + 4 <= |fixed|
  {
    match Attributes(fixed)
    case Err => Err
    case Ok(attrs) =>
      AttributesInside(fixed);
      var standard, names := Unnamed(attrs, AT_STANDARD_INFORMATION), JournalNames(fixed, attrs);
      if |standard| != 1 || names.Err? || |names.value| != 1 then Err
      else
        var s, n := ValueStart(fixed, standard[0]), ValueStart(fixed, names.value[0]);
        if s.Err? || n.Err? || s.value + 36 > |fixed| || n.value + 60 > |fixed| then Err
        else Ok(Fields(s.value + 32, n.value + 56))
  }

  lemma AttributesInside(fixed: Bytes)
    requires |fixed| >= 48 && Attributes(fixed).Ok?
    ensures AllInside(Attributes(fixed).value, |fixed|)
  {
    hide ParseFrom;
    forall i | 0 <= i < |Attributes(fixed).value|
      ensures Inside(Attributes(fixed).value[i], |fixed|)
    {
      ParsedInOrder(fixed, Used(fixed), First(fixed), i);
    }
  }

  /** The $STANDARD_INFORMATION value is long enough to hold its flags, as standard_flags demands. */
  ghost predicate StandardHoldsFlags(fixed: Bytes) {
    && |fixed| >= 48 && FlagOffsets(fixed).Ok?
    && var attrs := Attributes(fixed).value;
       AllInside(attrs, |fixed|) && ValueLength(fixed, Unnamed(attrs, AT_STANDARD_INFORMATION)[0]) >= 36
  }

  // ---------- edits of the two fields ----------

  /** Two records that differ at most in the bytes [lo, hi). */
  predicate Differ(a: Bytes, b: Bytes, lo: nat, hi: nat) {
    |a| == |b| && forall j :: 0 <= j < |a| && !(lo <= j < hi) ==> a[j] == b[j]
  }

  /** The header of an attribute, and so the place of its value, survives the edit. */
  lemma ValueSurvives(a: Bytes, b: Bytes, t: Attribute, lo: nat, hi: nat)
    requires Inside(t, |a|) && Differ(a, b, lo, hi) && (hi <= t.offset || t.offset + 24 <= lo)
    ensures ValueStart(a, t) == ValueStart(b, t) && ValueLength(a, t) == ValueLength(b, t)
  {
  }

  /** An edit outside an attribute, or at the flags of its $FILE_NAME value, does not
      change whether it names the journal. */
  lemma NameSurvives(a: Bytes, b: Bytes, t: Attribute, lo: nat, hi: nat)
    requires Inside(t, |a|) && Differ(a, b, lo, hi) && EditClear(a, t, lo, hi)
    ensures ValueStart(a, t) == ValueStart(b, t) && ValueLength(a, t) == ValueLength(b, t)
    ensures IsJournalName(a, t) == IsJournalName(b, t)
  {
    ValueSurvives(a, b, t, lo, hi);
    hide ValueStart, ValueLength;
    var v := ValueStart(a, t);
    if v.Ok? && ValueLength(a, t) >= 66 {
      var n := a[v.value + 64] as int * 2;
      if 66 + n <= ValueLength(a, t) {
        assert a[v.value + 66..v.value + 66 + n] == b[v.value + 66..v.value + 66 + n];
      }
    }
  }

  /** An edit outside an attribute, or of the flags in its $FILE_NAME value. */
  ghost predicate EditClear(a: Bytes, t: Attribute, lo: nat, hi: nat)
    requires Inside(t, |a|)
  {
    || hi <= t.offset || t.offset + t.length <= lo
    || (t.offset + 24 <= lo && (ValueStart(a, t).Ok? ==> lo == ValueStart(a, t).value + 56 && hi == lo + 4))
  }

  lemma {:induction false} JournalNamesSurvive(a: Bytes, b: Bytes, attrs: seq<Attribute>, lo: nat, hi: nat)
    requires AllInside(attrs, |a|) && Differ(a, b, lo, hi)
    requires forall i :: 0 <= i < |attrs| && attrs[i].typeCode == AT_FILE_NAME ==> EditClear(a, attrs[i], lo, hi)
    ensures JournalNames(b, attrs) == JournalNames(a, attrs)
  {
    hide IsJournalName, ValueStart;
    if attrs != [] {
      JournalNamesSurvive(a, b, attrs[1..], lo, hi);
      if attrs[0].typeCode == AT_FILE_NAME {
        NameSurvives(a, b, attrs[0], lo, hi);
      }
    }
  }

  /** Distinct places in the chain are disjoint intervals. */
  lemma {:induction false} ParsedDisjoint(fixed: Bytes, used: nat, cursor: nat, i: nat, j: nat)
    requires used <= |fixed| && ParseFrom(fixed, used, cursor).Ok? && i < j < |ParseFrom(fixed, used, cursor).value|
    ensures var attrs := ParseFrom(fixed, used, cursor).value; attrs[i].offset + attrs[i].length <= attrs[j].offset
    decreases used - cursor
  {
    hide HeaderAt;
    var next := cursor + HeaderAt(fixed, used, cursor).value.length;
    if i == 0 {
      ParsedInOrder(fixed, used, next, j - 1);
    } else {
      ParsedDisjoint(fixed, used, next, i - 1, j - 1);
    }
  }

  /** An edit in the body of attribute t is clear of every other attribute. */
  lemma OthersClear(fixed: Bytes, t: nat, i: nat, m: nat)
    requires |fixed| >= 48 && Attributes(fixed).Ok?
    requires t < |Attributes(fixed).value| && i < |Attributes(fixed).value| && i != t
    requires InBody(Attributes(fixed).value[t], m)
    ensures var x := Attributes(fixed).value[i]; m + 4 <= x.offset || x.offset + x.length <= m
  {
    hide ParseFrom;
    if i < t {
      ParsedDisjoint(fixed, Used(fixed), First(fixed), i, t);
    } else {
      ParsedDisjoint(fixed, Used(fixed), First(fixed), t, i);
    }
  }

  lemma AttributesSurvive(a: Bytes, b: Bytes, t: nat, m: nat)
    requires |a| >= 48 && Attributes(a).Ok? && t < |Attributes(a).value| && InBody(Attributes(a).value[t], m)
    requires Differ(a, b, m, m + 4)
    ensures Attributes(b) == Attributes(a) && First(b) == First(a) && Used(b) == Used(a) && m >= 48 + 24
  {
    hide ParseFrom;
    ParsedInOrder(a, Used(a), First(a), t);
    ParseSurvivesEdit(a, b, Used(a), First(a), t, m);
  }

  lemma FieldInBody(a: Bytes, x: Attribute, m: nat, d: nat)
    requires Inside(x, |a|) && ValueStart(a, x).Ok? && m == ValueStart(a, x).value + d && d + 4 <= ValueLength(a, x)
    ensures InBody(x, m)
  {
  }

  /** A fresh search finds the two fields where they were, after an edit of either. */
  lemma FlagOffsetsSurvive(a: Bytes, b: Bytes, m: nat)
    requires StandardHoldsFlags(a) && Differ(a, b, m, m + 4)
    requires m == FlagOffsets(a).value.standard || m == FlagOffsets(a).value.fileName
    ensures FlagOffsets(b) == FlagOffsets(a) && StandardHoldsFlags(b)
  {
    hide Attributes, IsJournalName, ValueStart, ValueLength, First, Used;
    AttributesInside(a);
    var attrs := Attributes(a).value;
    var standard, names := Unnamed(attrs, AT_STANDARD_INFORMATION), JournalNames(a, attrs).value;
    var x := if m == FlagOffsets(a).value.standard then standard[0] else names[0];
    var t: nat :| t < |attrs| && attrs[t] == x;
    FieldInBody(a, x, m, if m == FlagOffsets(a).value.standard then 32 else 56);
    AttributesSurvive(a, b, t, m);
    forall i | 0 <= i < |attrs|
      ensures attrs[i].typeCode == AT_FILE_NAME ==> EditClear(a, attrs[i], m, m + 4)
      ensures m + 4 <= attrs[i].offset || attrs[i].offset + 24 <= m
    {
      if i != t { OthersClear(a, t, i, m); }
    }
    JournalNamesSurvive(a, b, attrs, m, m + 4);
    ValueSurvives(a, b, standard[0], m, m + 4);
    ValueSurvives(a, b, names[0], m, m + 4);
  }

  /** The two fields lie in different attributes, so they never overlap. */
  lemma FieldsAreApart(a: Bytes)
    requires StandardHoldsFlags(a)
    ensures var f := FlagOffsets(a).value; f.standard + 4 <= f.fileName || f.fileName + 4 <= f.standard
  {
    hide Attributes, IsJournalName, ValueStart, ValueLength;
    AttributesInside(a);
    var attrs, f := Attributes(a).value, FlagOffsets(a).value;
    var standard, name := Unnamed(attrs, AT_STANDARD_INFORMATION)[0], JournalNames(a, attrs).value[0];
    var i: nat :| i < |attrs| && attrs[i] == standard;
    var t: nat :| t < |attrs| && attrs[t] == name;
    FieldInBody(a, standard, f.standard, 32);
    FieldInBody(a, name, f.fileName, 56);
    OthersClear(a, i, t, f.standard);
  }

  // ---------- the index key ----------

  datatype IndexEntry = IndexEntry(reference: nat, parent: nat, name: Bytes, flagsOffset: nat)

  /** The entry at the cursor of an $I30 node that ends at `end`. */
  function EntryAt(index: Bytes, cursor: nat, end: nat): (r: Result<IndexEntry>)
    requires cursor + 16 <= end <= |index|
    ensures r.Ok? ==> r.value.flagsOffset == cursor + 72 && cursor + 82 <= cursor + U16(index, cursor + 8) <= end
  {
    var length, keyLength := U16(index, cursor + 8), U16(index, cursor + 10);
    if length < 16 || length % 8 != 0 || cursor + length > end then Err
    else if U16(index, cursor + 12) > 1 || keyLength < 66 || 16 + keyLength > length then Err
    else
      var key := cursor + 16;
      var n := index[key + 64] as int * 2;
      if key + 66 + n > cursor + 16 + keyLength then Err
      else Ok(IndexEntry(U64(index, cursor), U64(index, key), index[key + 66..key + 66 + n], key + 56))
  }

  /** The terminal entry: flag 2, no key, and it ends the node. */
  predicate Terminal(index: Bytes, cursor: nat, end: nat)
    requires cursor + 16 <= end <= |index|
  {
    && 16 <= U16(index, cursor + 8) && U16(index, cursor + 8) % 8 == 0
    && 2 <= U16(index, cursor + 12) <= 3
    && U16(index, cursor + 10) == 0 && cursor + U16(index, cursor + 8) == end
  }

  /** index_entries, from the cursor to the terminal entry. */
  function EntriesFrom(index: Bytes, cursor: nat, end: nat): (r: Result<seq<IndexEntry>>)
    requires end <= |index|
    decreases end - cursor
  {
    if cursor + 16 > end then Err
    else if Terminal(index, cursor, end) then Ok([])
    else
      match EntryAt(index, cursor, end)
      case Err => Err
      case Ok(e) =>
        match EntriesFrom(index, cursor + U16(index, cursor + 8), end)
        case Err => Err
        case Ok(more) => Ok([e] + more)
  }

  /** The entries of the node whose index header is at `header`. */
  function IndexEntries(index: Bytes, header: nat): (r: Result<seq<IndexEntry>>) {
    if header + 16 > |index| then Err
    else
      var entries, length, room := U32(index, header), U32(index, header + 4), U32(index, header + 8);
      if entries < 16 || length < entries || length > room || header + length > |index| then Err
      else EntriesFrom(index, header + entries, header + length)
  }

  function Named(entries: seq<IndexEntry>, name: Bytes): (r: seq<IndexEntry>)
    ensures forall e :: e in r ==> e in entries && e.name == name
  {
    if entries == [] then []
    else (if entries[0].name == name then [entries[0]] else []) + Named(entries[1..], name)
  }

  /** The attributes of a type that carry a name. */
  function WithName(fixed: Bytes, attrs: seq<Attribute>, typeCode: nat, name: Bytes): (r: seq<Attribute>)
    requires AllInside(attrs, |fixed|)
    ensures forall i :: 0 <= i < |r| ==> r[i] in attrs && Inside(r[i], |fixed|) && r[i].typeCode == typeCode
  {
    if attrs == [] then []
    else (if attrs[0].typeCode == typeCode && Name(fixed, attrs[0]) == name then [attrs[0]] else [])
         + WithName(fixed, attrs[1..], typeCode, name)
  }

  /** $Extend must be an in-use base directory whose $I30 is wholly resident. */
  predicate ExtendOk(fixed: Bytes, attrs: seq<Attribute>)
    requires |fixed| >= 48 && AllInside(attrs, |fixed|)
  {
    && U16(fixed, 22) % 4 == 3 && U64(fixed, 32) == 0
    && (forall i :: 0 <= i < |attrs| ==> attrs[i].typeCode != AT_ATTRIBUTE_LIST)
    && WithName(fixed, attrs, AT_INDEX_ALLOCATION, I30) == [] && WithName(fixed, attrs, AT_BITMAP, I30) == []
  }

  /** The one $I30 root of $Extend, its value, and the references its key must carry. */
  function IndexRoot(fixed: Bytes): (r: Result<Attribute>)
    requires |fixed| >= 48
    ensures r.Ok? ==> Inside(r.value, |fixed|) && ValueStart(fixed, r.value).Ok? && ValueLength(fixed, r.value) >= 32
    ensures r.Ok? ==> Attributes(fixed).Ok? && r.value in Attributes(fixed).value
  {
    match Attributes(fixed)
    case Err => Err
    case Ok(attrs) =>
      AttributesInside(fixed);
      var roots := WithName(fixed, attrs, AT_INDEX_ROOT, I30);
      if !ExtendOk(fixed, attrs) || |roots| != 1 then Err
      else if ValueStart(fixed, roots[0]).Err? || ValueLength(fixed, roots[0]) < 32 then Err
      else
        var v := ValueStart(fixed, roots[0]).value;
        if U32(fixed, v) != AT_FILE_NAME || U32(fixed, v + 4) != 1 then Err
        else if U32(fixed, v + 8) < 512 || U32(fixed, v + 8) > 65536 then Err
        else Ok(roots[0])
  }

  /** find_journal_index_key: where $Extend keeps the journal's cached flags. */
  function IndexFlagOffset(fixed: Bytes, child: nat): (r: Result<nat>)
    requires |fixed| >= 48
    ensures r.Ok? ==> r.value + 4 <= |fixed|
  {
    match IndexRoot(fixed)
    case Err => Err
    case Ok(root) =>
      match IndexEntries(fixed, ValueStart(fixed, root).value + 16)
      case Err => Err
      case Ok(entries) =>
        var keys := Named(entries, ROOT_HEALTH);
        var parent := U16(fixed, 16) * 0x1_0000_0000_0000 + EXTEND_RECORD;
        if |keys| != 1 || keys[0].parent != parent || keys[0].reference != child
           || keys[0].flagsOffset + 4 > |fixed| then Err
        else Ok(keys[0].flagsOffset)
  }

  /** The key lies in the body of the root, past the root's own name. */
  ghost predicate RootHoldsKey(fixed: Bytes, child: nat) {
    && |fixed| >= 48 && IndexFlagOffset(fixed, child).Ok?
    && var root, m := IndexRoot(fixed).value, IndexFlagOffset(fixed, child).value;
       && m + 4 <= root.offset + root.length
       && root.offset + root.nameOffset + root.nameLength * 2 <= ValueStart(fixed, root).value
  }

  /** The walk survives an edit of the cached flags of one of its entries. */
  lemma {:induction false} EntriesSurvive(a: Bytes, b: Bytes, cursor: nat, end: nat, t: nat, m: nat)
    requires end <= |a| && Differ(a, b, m, m + 4)
    requires EntriesFrom(a, cursor, end).Ok? && t < |EntriesFrom(a, cursor, end).value|
    requires EntriesFrom(a, cursor, end).value[t].flagsOffset == m
    ensures EntriesFrom(b, cursor, end) == EntriesFrom(a, cursor, end) && m >= cursor + 72
    decreases end - cursor
  {
    hide EntryAt, Terminal;
    var next := cursor + U16(a, cursor + 8);
    EntriesBelow(a, cursor, end, t);
    EntryAgrees(a, b, cursor, end, m);
    if t == 0 {
      EntriesAgree(a, b, next, end);
    } else {
      EntriesSurvive(a, b, next, end, t - 1, m);
    }
  }

  lemma {:induction false} EntriesBelow(a: Bytes, cursor: nat, end: nat, t: nat)
    requires end <= |a| && EntriesFrom(a, cursor, end).Ok? && t < |EntriesFrom(a, cursor, end).value|
    ensures cursor + 16 <= end && !Terminal(a, cursor, end) && EntryAt(a, cursor, end).Ok?
    ensures EntriesFrom(a, cursor, end).value[t].flagsOffset >= cursor + 72
    ensures t == 0 ==> EntriesFrom(a, cursor, end).value[t].flagsOffset == cursor + 72
    ensures t > 0 ==> EntriesFrom(a, cursor, end).value[t].flagsOffset >= cursor + U16(a, cursor + 8) + 72
    decreases end - cursor
  {
    hide EntryAt, Terminal;
    if t > 0 {
      EntriesBelow(a, cursor + U16(a, cursor + 8), end, t - 1);
    }
  }

  /** One entry is read from bytes other than its cached flags. */
  lemma EntryAgrees(a: Bytes, b: Bytes, cursor: nat, end: nat, m: nat)
    requires cursor + 16 <= end <= |a| && Differ(a, b, m, m + 4) && EntryAt(a, cursor, end).Ok?
    requires m == cursor + 72 || m >= cursor + U16(a, cursor + 8)
    ensures U16(b, cursor + 8) == U16(a, cursor + 8)
    ensures EntryAt(b, cursor, end) == EntryAt(a, cursor, end) && Terminal(b, cursor, end) == Terminal(a, cursor, end)
  {
    var n := a[cursor + 80] as int * 2;
    assert a[cursor + 82..cursor + 82 + n] == b[cursor + 82..cursor + 82 + n];
  }

  lemma {:induction false} EntriesAgree(a: Bytes, b: Bytes, cursor: nat, end: nat)
    requires end <= |a| && Agree(a, b, cursor, end)
    ensures EntriesFrom(b, cursor, end) == EntriesFrom(a, cursor, end)
    decreases end - cursor
  {
    hide EntryAt, Terminal;
    if cursor + 16 <= end {
      SameEntry(a, b, cursor, end);
      if !Terminal(a, cursor, end) && EntryAt(a, cursor, end).Ok? {
        EntriesAgree(a, b, cursor + U16(a, cursor + 8), end);
      }
    }
  }

  lemma SameEntry(a: Bytes, b: Bytes, cursor: nat, end: nat)
    requires cursor + 16 <= end <= |a| && Agree(a, b, cursor, end)
    ensures U16(b, cursor + 8) == U16(a, cursor + 8)
    ensures EntryAt(b, cursor, end) == EntryAt(a, cursor, end) && Terminal(b, cursor, end) == Terminal(a, cursor, end)
  {
    if EntryAt(a, cursor, end).Ok? {
      var n := a[cursor + 80] as int * 2;
      assert a[cursor + 82..cursor + 82 + n] == b[cursor + 82..cursor + 82 + n];
    }
  }

  predicate NameClear(t: Attribute, lo: nat, hi: nat) {
    t.nameLength == 0 || hi <= t.offset + t.nameOffset || t.offset + t.nameOffset + t.nameLength * 2 <= lo
  }

  lemma {:induction false} WithNameSurvives(a: Bytes, b: Bytes, attrs: seq<Attribute>, typeCode: nat, name: Bytes,
      lo: nat, hi: nat)
    requires AllInside(attrs, |a|) && Differ(a, b, lo, hi)
    requires forall i :: 0 <= i < |attrs| ==> NameClear(attrs[i], lo, hi)
    ensures WithName(b, attrs, typeCode, name) == WithName(a, attrs, typeCode, name)
  {
    if attrs != [] {
      assert NameClear(attrs[0], lo, hi);
      WithNameSurvives(a, b, attrs[1..], typeCode, name, lo, hi);
      assert Name(a, attrs[0]) == Name(b, attrs[0]);
    }
  }

  /** The root is found again when the attributes parse alike and no header, name or
      root field changed. */
  lemma IndexRootSurvives(a: Bytes, b: Bytes, lo: nat, hi: nat)
    requires |a| >= 48 && IndexRoot(a).Ok? && Differ(a, b, lo, hi) && Attributes(b) == Attributes(a)
    requires forall j :: 16 <= j < 40 ==> a[j] == b[j]
    requires var attrs := Attributes(a).value;
             AllInside(attrs, |a|) && forall i :: 0 <= i < |attrs| ==> NameClear(attrs[i], lo, hi)
    requires var root := IndexRoot(a).value;
             hi <= root.offset || ValueStart(a, root).value + 12 <= lo
    ensures IndexRoot(b) == IndexRoot(a) && ValueStart(b, IndexRoot(a).value) == ValueStart(a, IndexRoot(a).value)
    ensures ValueLength(b, IndexRoot(a).value) == ValueLength(a, IndexRoot(a).value)
  {
    hide Attributes, WithName, ValueStart, ValueLength;
    var attrs, root := Attributes(a).value, IndexRoot(a).value;
    WithNameSurvives(a, b, attrs, AT_INDEX_ROOT, I30, lo, hi);
    WithNameSurvives(a, b, attrs, AT_INDEX_ALLOCATION, I30, lo, hi);
    WithNameSurvives(a, b, attrs, AT_BITMAP, I30, lo, hi);
    ValueSurvives(a, b, root, lo, hi);
  }

  lemma IndexSame(a: Bytes, b: Bytes, child: nat)
    requires RootHoldsKey(a, child) && |b| == |a| && IndexRoot(b) == IndexRoot(a) && U16(b, 16) == U16(a, 16)
    requires ValueStart(b, IndexRoot(a).value) == ValueStart(a, IndexRoot(a).value)
    requires IndexEntries(b, ValueStart(a, IndexRoot(a).value).value + 16)
        == IndexEntries(a, ValueStart(a, IndexRoot(a).value).value + 16)
    ensures IndexFlagOffset(b, child) == IndexFlagOffset(a, child) && RootHoldsKey(b, child)
  {
    hide IndexRoot, ValueStart, ValueLength, IndexEntries, Named;
  }

  /** The entry that holds the key. */
  lemma KeyEntry(a: Bytes, child: nat) returns (e: nat, header: nat)
    requires RootHoldsKey(a, child)
    ensures header == ValueStart(a, IndexRoot(a).value).value + 16 && header + 16 <= |a|
    ensures 16 <= U32(a, header) <= U32(a, header + 4) && header + U32(a, header + 4) <= |a|
    ensures var r := EntriesFrom(a, header + U32(a, header), header + U32(a, header + 4));
            r.Ok? && e < |r.value| && r.value[e].flagsOffset == IndexFlagOffset(a, child).value
  {
    hide IndexRoot, ValueStart, ValueLength, EntriesFrom;
    header := ValueStart(a, IndexRoot(a).value).value + 16;
    var entries := IndexEntries(a, header).value;
    var key := Named(entries, ROOT_HEALTH)[0];
    assert key in Named(entries, ROOT_HEALTH);
    e :| e < |entries| && entries[e] == key;
  }

  /** A fresh search finds the key where it was, after an edit of its cached flags. */
  lemma IndexOffsetSurvives(a: Bytes, b: Bytes, child: nat, m: nat)
    requires RootHoldsKey(a, child) && m == IndexFlagOffset(a, child).value && Differ(a, b, m, m + 4)
    ensures IndexFlagOffset(b, child) == Ok(m) && RootHoldsKey(b, child)
  {
    hide Attributes, WithName, ValueStart, ValueLength, EntriesFrom, IndexRoot, Named;
    AttributesInside(a);
    var attrs, root := Attributes(a).value, IndexRoot(a).value;
    var e, header := KeyEntry(a, child);
    EntriesSurvive(a, b, header + U32(a, header), header + U32(a, header + 4), e, m);
    var t: nat :| t < |attrs| && attrs[t] == root;
    AttributesSurvive(a, b, t, m);
    hide Differ, InBody, NameClear;
    forall i | 0 <= i < |attrs|
      ensures NameClear(attrs[i], m, m + 4)
    {
      if i != t { OthersClear(a, t, i, m); }
    }
    IndexRootSurvives(a, b, m, m + 4);
    IndexSame(a, b, child);
  }

  // ---------- noise between the header and the attributes ----------

  /** Two records that differ only between the fixed header and the first attribute,
      where the fixup array lies. */
  predicate SameButArray(a: Bytes, b: Bytes, lo: nat, hi: nat) {
    |a| >= 48 && Differ(a, b, lo, hi) && 40 <= lo && hi <= First(a)
  }

  lemma NoiseParses(a: Bytes, b: Bytes, lo: nat, hi: nat)
    requires SameButArray(a, b, lo, hi)
    ensures First(b) == First(a) && Used(b) == Used(a) && Attributes(b) == Attributes(a)
  {
    hide ParseFrom;
    if First(a) >= 48 && Used(a) <= |a| && First(a) < Used(a) {
      ParseAgrees(a, b, Used(a), First(a));
    }
  }

  lemma AttributesAbove(a: Bytes, i: nat)
    requires |a| >= 48 && Attributes(a).Ok? && i < |Attributes(a).value|
    ensures Attributes(a).value[i].offset >= First(a) && Inside(Attributes(a).value[i], |a|)
  {
    hide ParseFrom;
    ParsedInOrder(a, Used(a), First(a), i);
  }

  lemma NoiseKeepsFields(a: Bytes, b: Bytes, lo: nat, hi: nat)
    requires SameButArray(a, b, lo, hi) && StandardHoldsFlags(a)
    ensures FlagOffsets(b) == FlagOffsets(a) && StandardHoldsFlags(b)
    ensures U32(b, FlagOffsets(a).value.standard) == U32(a, FlagOffsets(a).value.standard)
    ensures U32(b, FlagOffsets(a).value.fileName) == U32(a, FlagOffsets(a).value.fileName)
    ensures FlagOffsets(a).value.standard >= hi && FlagOffsets(a).value.fileName >= hi
  {
    hide Attributes, IsJournalName, ValueStart, ValueLength, First, Used;
    NoiseParses(a, b, lo, hi);
    AttributesInside(a);
    var attrs := Attributes(a).value;
    forall i | 0 <= i < |attrs|
      ensures hi <= attrs[i].offset
    {
      AttributesAbove(a, i);
    }
    JournalNamesSurvive(a, b, attrs, lo, hi);
    var standard, names := Unnamed(attrs, AT_STANDARD_INFORMATION), JournalNames(a, attrs).value;
    ValueSurvives(a, b, standard[0], lo, hi);
    ValueSurvives(a, b, names[0], lo, hi);
  }

  lemma NoiseKeepsKey(a: Bytes, b: Bytes, child: nat, lo: nat, hi: nat)
    requires SameButArray(a, b, lo, hi) && RootHoldsKey(a, child)
    ensures IndexFlagOffset(b, child) == IndexFlagOffset(a, child) && RootHoldsKey(b, child)
    ensures U32(b, IndexFlagOffset(a, child).value) == U32(a, IndexFlagOffset(a, child).value)
    ensures IndexFlagOffset(a, child).value >= hi
  {
    hide Attributes, WithName, ValueStart, ValueLength, EntriesFrom, First, Used, IndexRoot, Named;
    NoiseParses(a, b, lo, hi);
    AttributesInside(a);
    var attrs, root := Attributes(a).value, IndexRoot(a).value;
    forall i | 0 <= i < |attrs|
      ensures hi <= attrs[i].offset && NameClear(attrs[i], lo, hi)
    {
      AttributesAbove(a, i);
    }
    IndexRootSurvives(a, b, lo, hi);
    var e, header := KeyEntry(a, child);
    EntriesAgree(a, b, header + U32(a, header), header + U32(a, header + 4));
    EntriesBelow(a, header + U32(a, header), header + U32(a, header + 4), e);
    IndexSame(a, b, child);
  }
}
