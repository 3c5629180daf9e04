/** The walks over attributes and index entries, step by step, and the searches over what
    they yield: each accepted exactly when a plain statement about the bytes holds. */
module ChainWalks {
  import opened Bytes
  import opened FileRecords
  import opened FlagCopies
  import FX = FixtureRecords

  // ---------- the validator's attributes ----------

  /** Where the i-th attribute of a gapless chain from o starts, or the chain ends. */
  function Place(attrs: seq<Attribute>, o: nat, i: nat): nat
    requires i <= |attrs|
  {
    if i == 0 then o else attrs[i - 1].offset + attrs[i - 1].length
  }

  /** The attribute read at o, which is not the end marker. */
  predicate StandsAt(fixed: Bytes, used: nat, o: nat, a: Attribute)
    requires used <= |fixed|
  {
    o + 4 <= used && U32(fixed, o) != 0xFFFF_FFFF && HeaderAt(fixed, used, o) == Ok(a)
  }

  /** Header after header without a gap, each in the used bytes, up to the end marker. */
  predicate Walked(fixed: Bytes, used: nat, o: nat, attrs: seq<Attribute>)
    requires used <= |fixed|
  {
    && (forall i :: 0 <= i < |attrs| ==> StandsAt(fixed, used, Place(attrs, o, i), attrs[i]))
    && Place(attrs, o, |attrs|) + 4 <= used && U32(fixed, Place(attrs, o, |attrs|)) == 0xFFFF_FFFF
  }

  lemma WalkedStep(fixed: Bytes, used: nat, o: nat, attrs: seq<Attribute>)
    requires used <= |fixed| && attrs != []
    ensures Walked(fixed, used, o, attrs) <==>
        StandsAt(fixed, used, o, attrs[0]) && Walked(fixed, used, attrs[0].offset + attrs[0].length, attrs[1..])
  {
    hide U32, StandsAt;
    var next := attrs[0].offset + attrs[0].length;
    assert Place(attrs, o, 0) == o;
    assert forall i :: 0 < i <= |attrs| ==> Place(attrs, o, i) == Place(attrs[1..], next, i - 1);
    if Walked(fixed, used, o, attrs) {
      forall i | 0 <= i < |attrs[1..]| ensures StandsAt(fixed, used, Place(attrs[1..], next, i), attrs[1..][i]) {
        assert StandsAt(fixed, used, Place(attrs, o, i + 1), attrs[i + 1]);
      }
    }
  }

  /** parse_attributes accepts exactly the walked chains, and returns what was walked. */
  lemma {:induction false} ParseIff(fixed: Bytes, used: nat, o: nat, attrs: seq<Attribute>)
    requires used <= |fixed|
    ensures ParseFrom(fixed, used, o) == Ok(attrs) <==> Walked(fixed, used, o, attrs)
    decreases |attrs|
  {
    hide U32, StandsAt, Walked, ParseFrom;
    ParseStep(fixed, used, o);
    if attrs == [] {
      WalkedNone(fixed, used, o);
    } else {
      WalkedStep(fixed, used, o, attrs);
      ParseIff(fixed, used, attrs[0].offset + attrs[0].length, attrs[1..]);
      assert [attrs[0]] + attrs[1..] == attrs;
    }
  }

  lemma WalkedNone(fixed: Bytes, used: nat, o: nat)
    requires used <= |fixed|
    ensures Walked(fixed, used, o, []) <==> o + 4 <= used && U32(fixed, o) == 0xFFFF_FFFF
  {
    hide U32, HeaderAt;
  }

  lemma ParseStep(fixed: Bytes, used: nat, o: nat)
    requires used <= |fixed|
    ensures ParseFrom(fixed, used, o) == Ok([]) <==> o + 4 <= used && U32(fixed, o) == 0xFFFF_FFFF
    ensures forall a: Attribute, more: seq<Attribute> :: ParseFrom(fixed, used, o) == Ok([a] + more) <==>
        StandsAt(fixed, used, o, a) && ParseFrom(fixed, used, a.offset + a.length) == Ok(more)
  {
    hide U32;
    forall a: Attribute, more: seq<Attribute>
      ensures ParseFrom(fixed, used, o) == Ok([a] + more) <==>
          StandsAt(fixed, used, o, a) && ParseFrom(fixed, used, a.offset + a.length) == Ok(more)
    {
      assert ([a] + more)[0] == a && ([a] + more)[1..] == more;
    }
  }

  // ---------- the fixture builder's attributes ----------

  function BuilderPlace(chain: seq<FX.Attr>, o: nat, i: nat): nat
    requires i <= |chain|
  {
    if i == 0 then o else FX.End(chain[i - 1])
  }

  /** The builder's attribute at o, which is not the end marker. */
  predicate BuilderStandsAt(record: Bytes, o: nat, a: FX.Attr) {
    o + 4 <= |record| && U32(record, o) != 0xFFFF_FFFF && FX.AttrAt(record, o) == Ok(a)
  }

  /** The same walk over the whole record. */
  predicate BuilderWalked(record: Bytes, o: nat, chain: seq<FX.Attr>) {
    && (forall i :: 0 <= i < |chain| ==> BuilderStandsAt(record, BuilderPlace(chain, o, i), chain[i]))
    && BuilderPlace(chain, o, |chain|) + 4 <= |record|
    && U32(record, BuilderPlace(chain, o, |chain|)) == 0xFFFF_FFFF
  }

  lemma BuilderWalkedStep(record: Bytes, o: nat, chain: seq<FX.Attr>)
    requires chain != []
    ensures BuilderWalked(record, o, chain) <==>
        BuilderStandsAt(record, o, chain[0]) && BuilderWalked(record, FX.End(chain[0]), chain[1..])
  {
    hide U32, BuilderStandsAt;
    var next := FX.End(chain[0]);
    assert BuilderPlace(chain, o, 0) == o;
    assert forall i :: 0 < i <= |chain| ==> BuilderPlace(chain, o, i) == BuilderPlace(chain[1..], next, i - 1);
    if BuilderWalked(record, o, chain) {
      forall i | 0 <= i < |chain[1..]|
        ensures BuilderStandsAt(record, BuilderPlace(chain[1..], next, i), chain[1..][i])
      {
        assert BuilderStandsAt(record, BuilderPlace(chain, o, i + 1), chain[i + 1]);
      }
    }
  }

  /** The generator runs to the end exactly on the walked chains. */
  lemma {:induction false} ChainIff(record: Bytes, o: nat, chain: seq<FX.Attr>)
    ensures FX.Chain(record, o) == Ok(chain) <==> BuilderWalked(record, o, chain)
    decreases |chain|
  {
    hide U32, BuilderStandsAt, FX.Chain, BuilderWalked;
    ChainStep(record, o);
    if chain == [] {
      BuilderWalkedNone(record, o);
    } else {
      BuilderWalkedStep(record, o, chain);
      ChainIff(record, FX.End(chain[0]), chain[1..]);
      assert [chain[0]] + chain[1..] == chain;
    }
  }

  lemma BuilderWalkedNone(record: Bytes, o: nat)
    ensures BuilderWalked(record, o, []) <==> o + 4 <= |record| && U32(record, o) == 0xFFFF_FFFF
  {
    hide U32, FX.AttrAt;
  }

  lemma ChainStep(record: Bytes, o: nat)
    ensures FX.Chain(record, o) == Ok([]) <==> o + 4 <= |record| && U32(record, o) == 0xFFFF_FFFF
    ensures forall a: FX.Attr, more: seq<FX.Attr> :: FX.Chain(record, o) == Ok([a] + more) <==>
        BuilderStandsAt(record, o, a) && FX.Chain(record, FX.End(a)) == Ok(more)
  {
    hide U32, FX.BodyOf;
    forall a: FX.Attr, more: seq<FX.Attr>
      ensures FX.Chain(record, o) == Ok([a] + more) <==>
          BuilderStandsAt(record, o, a) && FX.Chain(record, FX.End(a)) == Ok(more)
    {
      assert ([a] + more)[0] == a && ([a] + more)[1..] == more;
    }
  }

  // ---------- the fixture builder's search ----------

  /** `a` carries type and name, follows the attributes `before` without a gap, and none of them does. */
  predicate FirstMatch(record: Bytes, o: nat, typeCode: nat, name: Bytes, before: seq<FX.Attr>, a: FX.Attr) {
    && (forall i :: 0 <= i < |before| ==>
          && BuilderStandsAt(record, BuilderPlace(before, o, i), before[i])
          && !(before[i].body.typeCode == typeCode && before[i].body.name == name))
    && BuilderStandsAt(record, BuilderPlace(before, o, |before|), a)
    && a.body.typeCode == typeCode && a.body.name == name
  }

  lemma FindStep(record: Bytes, o: nat, typeCode: nat, name: Bytes)
    ensures forall a: FX.Attr :: BuilderStandsAt(record, o, a) ==>
        FX.FindFrom(record, o, typeCode, name)
        == if a.body.typeCode == typeCode && a.body.name == name then Ok(a)
           else FX.FindFrom(record, FX.End(a), typeCode, name)
    ensures FX.FindFrom(record, o, typeCode, name).Ok? ==>
        FX.AttrAt(record, o).Ok? && BuilderStandsAt(record, o, FX.AttrAt(record, o).value)
            && FX.AttrAt(record, o).value.length >= 24
  {
    hide U32, FX.BodyOf;
  }

  /** What the search finds is the first match of a walk. */
  lemma {:induction false} FoundFirst(record: Bytes, o: nat, typeCode: nat, name: Bytes) returns (before: seq<FX.Attr>)
    requires FX.FindFrom(record, o, typeCode, name).Ok?
    ensures FirstMatch(record, o, typeCode, name, before, FX.FindFrom(record, o, typeCode, name).value)
    decreases |record| - o
  {
    hide U32, FX.AttrAt, FX.FindFrom, BuilderStandsAt;
    FindStep(record, o, typeCode, name);
    var a := FX.AttrAt(record, o).value;
    if a.body.typeCode == typeCode && a.body.name == name {
      before := [];
    } else {
      assert o + 4 <= |record| by { StandsInside(record, o, a); }
      var more := FoundFirst(record, FX.End(a), typeCode, name);
      before := [a] + more;
      StandsInside(record, o, a);
      assert forall i :: 0 <= i <= |more| ==> BuilderPlace(before, o, i + 1) == BuilderPlace(more, FX.End(a), i);
      forall i | 0 <= i < |before|
        ensures BuilderStandsAt(record, BuilderPlace(before, o, i), before[i])
            && !(before[i].body.typeCode == typeCode && before[i].body.name == name)
      {
        if i > 0 {
          assert before[i] == more[i - 1] && BuilderPlace(before, o, i) == BuilderPlace(more, FX.End(a), i - 1);
        }
      }
    }
  }

  lemma StandsInside(record: Bytes, o: nat, a: FX.Attr)
    requires BuilderStandsAt(record, o, a)
    ensures o + 4 <= |record| && a.offset == o
  {
    hide FX.BodyOf;
  }

  /** And a first match is what the search finds, whatever follows it. */
  lemma {:induction false} FirstFound(record: Bytes, o: nat, typeCode: nat, name: Bytes, before: seq<FX.Attr>,
      a: FX.Attr)
    requires FirstMatch(record, o, typeCode, name, before, a)
    ensures FX.FindFrom(record, o, typeCode, name) == Ok(a)
    decreases |before|
  {
    hide U32, FX.AttrAt, FX.FindFrom, BuilderStandsAt;
    FindStep(record, o, typeCode, name);
    if before != [] {
      var next := FX.End(before[0]);
      assert BuilderPlace(before, o, 0) == o;
      assert forall i :: 0 <= i <= |before[1..]| ==>
          BuilderPlace(before[1..], next, i) == BuilderPlace(before, o, i + 1);
      forall i | 0 <= i < |before[1..]|
        ensures BuilderStandsAt(record, BuilderPlace(before[1..], next, i), before[1..][i])
            && !(before[1..][i].body.typeCode == typeCode && before[1..][i].body.name == name)
      {
        assert before[1..][i] == before[i + 1];
      }
      FirstFound(record, next, typeCode, name, before[1..], a);
    }
  }

  // ---------- index entries ----------

  /** Entry after entry at the places ps, each as long as it says, up to the terminal one. */
  predicate EntriesWalked(index: Bytes, end: nat, ps: seq<nat>, entries: seq<IndexEntry>)
    requires end <= |index|
  {
    && |ps| == |entries| + 1
    && (forall i :: 0 <= i < |entries| ==>
          && ps[i] + 16 <= end && !Terminal(index, ps[i], end) && EntryAt(index, ps[i], end) == Ok(entries[i])
          && ps[i + 1] == ps[i] + U16(index, ps[i] + 8))
    && ps[|entries|] + 16 <= end && Terminal(index, ps[|entries|], end)
  }

  /** Accepted entries come from such a walk. */
  lemma {:induction false} EntriesPlaced(index: Bytes, o: nat, end: nat) returns (ps: seq<nat>)
    requires end <= |index| && EntriesFrom(index, o, end).Ok?
    ensures EntriesWalked(index, end, ps, EntriesFrom(index, o, end).value) && ps[0] == o
    decreases end - o
  {
    hide U16, EntryAt, Terminal;
    if Terminal(index, o, end) {
      ps := [o];
    } else {
      assert EntryLength(index, o, end) by { EntryIsLong(index, o, end); }
      var more := EntriesPlaced(index, o + U16(index, o + 8), end);
      ps := [o] + more;
    }
  }

  predicate EntryLength(index: Bytes, o: nat, end: nat)
    requires o + 16 <= end <= |index|
  {
    U16(index, o + 8) > 0 && o + U16(index, o + 8) <= end
  }

  lemma EntryIsLong(index: Bytes, o: nat, end: nat)
    requires o + 16 <= end <= |index| && EntryAt(index, o, end).Ok?
    ensures EntryLength(index, o, end)
  {
  }

  /** And every such walk is accepted. */
  lemma {:induction false} PlacedEntries(index: Bytes, end: nat, ps: seq<nat>, entries: seq<IndexEntry>)
    requires end <= |index| && EntriesWalked(index, end, ps, entries)
    ensures EntriesFrom(index, ps[0], end) == Ok(entries)
    decreases |entries|
  {
    hide U16, EntryAt, Terminal;
    if entries != [] {
      assert EntriesWalked(index, end, ps[1..], entries[1..]);
      PlacedEntries(index, end, ps[1..], entries[1..]);
      assert [entries[0]] + entries[1..] == entries;
    }
  }

  // ---------- the searches ----------

  /** The t-th entry is the only one called $RootHealth. */
  predicate SoleKey(entries: seq<IndexEntry>, t: nat) {
    t < |entries| && forall i :: 0 <= i < |entries| ==> (entries[i].name == ROOT_HEALTH <==> i == t)
  }

  lemma {:induction false} NamedSole(entries: seq<IndexEntry>, t: nat)
    requires SoleKey(entries, t)
    ensures Named(entries, ROOT_HEALTH) == [entries[t]]
  {
    if t == 0 {
      NamedNone(entries[1..]);
    } else {
      assert SoleKey(entries[1..], t - 1) by {
        forall i | 0 <= i < |entries[1..]|
          ensures entries[1..][i].name == ROOT_HEALTH <==> i == t - 1
        {
          assert entries[1..][i] == entries[i + 1];
        }
      }
      NamedSole(entries[1..], t - 1);
    }
  }

  lemma {:induction false} NamedNone(entries: seq<IndexEntry>)
    requires forall i :: 0 <= i < |entries| ==> entries[i].name != ROOT_HEALTH
    ensures Named(entries, ROOT_HEALTH) == []
  {
    if entries != [] { NamedNone(entries[1..]); }
  }

  lemma {:induction false} SoleNamed(entries: seq<IndexEntry>) returns (t: nat)
    requires |Named(entries, ROOT_HEALTH)| == 1
    ensures SoleKey(entries, t) && Named(entries, ROOT_HEALTH)[0] == entries[t]
  {
    if entries[0].name == ROOT_HEALTH {
      t := 0;
      NoneNamed(entries[1..]);
    } else {
      t := SoleNamed(entries[1..]);
      t := t + 1;
    }
  }

  lemma {:induction false} NoneNamed(entries: seq<IndexEntry>)
    requires Named(entries, ROOT_HEALTH) == []
    ensures forall i :: 0 <= i < |entries| ==> entries[i].name != ROOT_HEALTH
  {
    if entries != [] { NoneNamed(entries[1..]); }
  }

  /** find_journal_index_key succeeds exactly when one entry of the root is called $RootHealth,
      and that one refers to the journal's record and to $Extend. */
  lemma KeyIff(fixed: Bytes, child: nat, entries: seq<IndexEntry>)
    requires |fixed| >= 48 && IndexRoot(fixed).Ok?
    requires IndexEntries(fixed, ValueStart(fixed, IndexRoot(fixed).value).value + 16) == Ok(entries)
    ensures forall m: nat :: IndexFlagOffset(fixed, child) == Ok(m) <==>
        exists t: nat :: SoleKey(entries, t) && entries[t].flagsOffset == m && entries[t].reference == child
            && entries[t].parent == U16(fixed, 16) * 0x1_0000_0000_0000 + 11
  {
    hide IndexRoot, U16, IndexEntries;
    var header := ValueStart(fixed, IndexRoot(fixed).value).value + 16;
    if |Named(entries, ROOT_HEALTH)| == 1 {
      var t := SoleNamed(entries);
      KeyInside(fixed, header, entries, t);
      assert SoleKey(entries, t);
    }
    forall t: nat | SoleKey(entries, t)
      ensures |Named(entries, ROOT_HEALTH)| == 1 && Named(entries, ROOT_HEALTH)[0] == entries[t]
      ensures entries[t].flagsOffset + 4 <= |fixed|
    {
      NamedSole(entries, t);
      KeyInside(fixed, header, entries, t);
    }
  }

  lemma KeyInside(fixed: Bytes, header: nat, entries: seq<IndexEntry>, t: nat)
    requires IndexEntries(fixed, header) == Ok(entries) && t < |entries|
    ensures entries[t].flagsOffset + 4 <= |fixed|
  {
    hide U16, U32, EntriesFrom, EntryAt, Terminal;
    var ps := EntriesPlaced(fixed, header + U32(fixed, header), header + U32(fixed, header + 4));
  }

  /** The t-th attribute is the only unnamed one of its type. */
  predicate SoleUnnamed(attrs: seq<Attribute>, typeCode: nat, t: nat) {
    t < |attrs| && forall i :: 0 <= i < |attrs| ==>
      (attrs[i].typeCode == typeCode && attrs[i].nameLength == 0 <==> i == t)
  }

  lemma {:induction false} UnnamedSole(attrs: seq<Attribute>, typeCode: nat, t: nat)
    requires SoleUnnamed(attrs, typeCode, t)
    ensures Unnamed(attrs, typeCode) == [attrs[t]]
  {
    if t == 0 {
      UnnamedNone(attrs[1..], typeCode);
    } else {
      forall i | 0 <= i < |attrs[1..]|
        ensures attrs[1..][i].typeCode == typeCode && attrs[1..][i].nameLength == 0 <==> i == t - 1
      {
        assert attrs[1..][i] == attrs[i + 1];
      }
      UnnamedSole(attrs[1..], typeCode, t - 1);
    }
  }

  lemma {:induction false} UnnamedNone(attrs: seq<Attribute>, typeCode: nat)
    requires forall i :: 0 <= i < |attrs| ==> !(attrs[i].typeCode == typeCode && attrs[i].nameLength == 0)
    ensures Unnamed(attrs, typeCode) == []
  {
    if attrs != [] { UnnamedNone(attrs[1..], typeCode); }
  }

  /** A resident $FILE_NAME. */
  predicate Names(a: Attribute) {
    a.typeCode == 0x30 && !a.nonresident
  }

  /** Every resident $FILE_NAME can be read, and the t-th is the only one that names the journal. */
  predicate SoleJournalName(fixed: Bytes, attrs: seq<Attribute>, t: nat)
    requires AllInside(attrs, |fixed|)
  {
    t < |attrs| && forall i :: 0 <= i < |attrs| ==>
      if Names(attrs[i]) then IsJournalName(fixed, attrs[i]) == Ok(i == t) else i != t
  }

  lemma JournalNamesTurn(fixed: Bytes, attrs: seq<Attribute>)
    requires attrs != [] && AllInside(attrs, |fixed|)
    ensures AllInside(attrs[1..], |fixed|) && Inside(attrs[0], |fixed|)
    ensures var more := JournalNames(fixed, attrs[1..]);
            JournalNames(fixed, attrs)
            == if !Names(attrs[0]) then more
               else if IsJournalName(fixed, attrs[0]).Err? || more.Err? then Err
               else if IsJournalName(fixed, attrs[0]).value then Ok([attrs[0]] + more.value)
               else more
  {
    hide IsJournalName;
    var more := JournalNames(fixed, attrs[1..]);
    if more.Ok? { assert [] + more.value == more.value; }
  }

  lemma {:induction false} JournalNameSole(fixed: Bytes, attrs: seq<Attribute>, t: nat)
    requires AllInside(attrs, |fixed|) && SoleJournalName(fixed, attrs, t)
    ensures JournalNames(fixed, attrs) == Ok([attrs[t]])
  {
    hide IsJournalName;
    JournalNamesTurn(fixed, attrs);
    if t == 0 {
      assert forall i :: 0 <= i < |attrs[1..]| ==> attrs[1..][i] == attrs[i + 1];
      JournalNameNone(fixed, attrs[1..]);
      assert [attrs[0]] + [] == [attrs[0]];
    } else {
      forall i | 0 <= i < |attrs[1..]|
        ensures if Names(attrs[1..][i]) then IsJournalName(fixed, attrs[1..][i]) == Ok(i == t - 1) else i != t - 1
      {
        assert attrs[1..][i] == attrs[i + 1];
      }
      JournalNameSole(fixed, attrs[1..], t - 1);
    }
  }

  lemma {:induction false} JournalNameNone(fixed: Bytes, attrs: seq<Attribute>)
    requires AllInside(attrs, |fixed|)
    ensures JournalNames(fixed, attrs) == Ok([]) <==>
        forall i :: 0 <= i < |attrs| && Names(attrs[i]) ==> IsJournalName(fixed, attrs[i]) == Ok(false)
  {
    hide IsJournalName;
    if attrs != [] {
      JournalNameNone(fixed, attrs[1..]);
      JournalNamesTurn(fixed, attrs);
      assert forall i :: 0 < i < |attrs| ==> attrs[i] == attrs[1..][i - 1];
    }
  }

  lemma {:induction false} SoleNameFound(fixed: Bytes, attrs: seq<Attribute>) returns (t: nat)
    requires AllInside(attrs, |fixed|) && JournalNames(fixed, attrs).Ok? && |JournalNames(fixed, attrs).value| == 1
    ensures SoleJournalName(fixed, attrs, t) && JournalNames(fixed, attrs).value[0] == attrs[t]
  {
    hide IsJournalName;
    if Names(attrs[0]) && IsJournalName(fixed, attrs[0]) == Ok(true) {
      t := 0;
      JournalNameNone(fixed, attrs[1..]);
    } else {
      t := SoleNameFound(fixed, attrs[1..]);
      t := t + 1;
    }
  }

  lemma {:induction false} SoleUnnamedFound(attrs: seq<Attribute>, typeCode: nat) returns (t: nat)
    requires |Unnamed(attrs, typeCode)| == 1
    ensures SoleUnnamed(attrs, typeCode, t) && Unnamed(attrs, typeCode)[0] == attrs[t]
  {
    if attrs[0].typeCode == typeCode && attrs[0].nameLength == 0 {
      t := 0;
      NoneUnnamed(attrs[1..], typeCode);
    } else {
      t := SoleUnnamedFound(attrs[1..], typeCode);
      t := t + 1;
    }
  }

  lemma {:induction false} NoneUnnamed(attrs: seq<Attribute>, typeCode: nat)
    requires Unnamed(attrs, typeCode) == []
    ensures forall i :: 0 <= i < |attrs| ==> !(attrs[i].typeCode == typeCode && attrs[i].nameLength == 0)
  {
    if attrs != [] { NoneUnnamed(attrs[1..], typeCode); }
  }

  /** The fields lie at 32 and 56 of the values of the s-th and n-th attribute. */
  predicate FieldsAt(fixed: Bytes, attrs: seq<Attribute>, s: nat, n: nat, f: Fields)
    requires AllInside(attrs, |fixed|)
  {
    && SoleUnnamed(attrs, 0x10, s) && SoleJournalName(fixed, attrs, n)
    && ValueStart(fixed, attrs[s]).Ok? && f.standard == ValueStart(fixed, attrs[s]).value + 32
    && ValueStart(fixed, attrs[n]).Ok? && f.fileName == ValueStart(fixed, attrs[n]).value + 56
    && f.standard + 4 <= |fixed| && f.fileName + 4 <= |fixed|
  }

  /** journal_record_flag_offsets succeeds exactly when the record has one unnamed
      $STANDARD_INFORMATION and one $FILE_NAME of the journal, every other $FILE_NAME can be
      read, and the two resident values give the fields room. */
  lemma FieldsIff(fixed: Bytes, attrs: seq<Attribute>)
    requires |fixed| >= 48 && Attributes(fixed) == Ok(attrs) && AllInside(attrs, |fixed|)
    ensures forall f: Fields :: FlagOffsets(fixed) == Ok(f) <==>
        exists s: nat, n: nat :: FieldsAt(fixed, attrs, s, n, f)
  {
    hide Attributes, IsJournalName, ValueStart;
    if |Unnamed(attrs, 0x10)| == 1 && JournalNames(fixed, attrs).Ok? && |JournalNames(fixed, attrs).value| == 1 {
      var s := SoleUnnamedFound(attrs, 0x10);
      var n := SoleNameFound(fixed, attrs);
      forall f: Fields | FlagOffsets(fixed) == Ok(f) ensures FieldsAt(fixed, attrs, s, n, f) { }
    }
    forall f: Fields, s: nat, n: nat | FieldsAt(fixed, attrs, s, n, f) ensures FlagOffsets(fixed) == Ok(f) {
      UnnamedSole(attrs, 0x10, s);
      JournalNameSole(fixed, attrs, n);
    }
  }
}
