/** What the bytes around the three flag fields say whenever they are found: the laws are
    stated on offsets of the two records. */
module FlagPlaces {
  import opened Bytes
  import opened FileRecords
  import opened FlagCopies
  import opened RecordStore
  import opened FlagRewrite

  /** "$RootHealth" stands at o in UTF-16LE, its length in characters two bytes before. */
  predicate NameAt(s: Bytes, o: nat) {
    && 2 <= o && o + 22 <= |s| && s[o - 2] == 11
    && s[o..o + 22] == [0x24, 0, 0x52, 0, 0x6F, 0, 0x6F, 0, 0x74, 0, 0x48, 0,
                        0x65, 0, 0x61, 0, 0x6C, 0, 0x74, 0, 0x68, 0]
  }

  // ---------- the key in $Extend ----------

  lemma {:induction false} EntryFound(index: Bytes, cursor: nat, end: nat, e: IndexEntry) returns (at: nat)
    requires end <= |index| && EntriesFrom(index, cursor, end).Ok? && e in EntriesFrom(index, cursor, end).value
    ensures cursor <= at && at + 16 <= end && EntryAt(index, at, end) == Ok(e)
    decreases end - cursor
  {
    hide EntryAt, Terminal;
    var more := EntriesFrom(index, cursor + U16(index, cursor + 8), end);
    if EntryAt(index, cursor, end) == Ok(e) {
      at := cursor;
    } else {
      assert EntriesFrom(index, cursor, end).value == [EntryAt(index, cursor, end).value] + more.value;
      at := EntryFound(index, cursor + U16(index, cursor + 8), end, e);
    }
  }

  /** Around the key's flags at m: the child and parent references ahead of them, the name
      behind, and the entry is not the terminal one. */
  lemma KeyBytes(fixed: Bytes, child: nat, m: nat)
    requires |fixed| >= 48 && IndexFlagOffset(fixed, child) == Ok(m)
    ensures 72 <= m && m + 32 <= |fixed| && NameAt(fixed, m + 10)
    ensures U64(fixed, m - 72) == child
    ensures U64(fixed, m - 56) == U16(fixed, 16) * 0x1_0000_0000_0000 + 11
    ensures U16(fixed, m - 60) <= 1
  {
    hide IndexRoot, U16, U64, EntriesFrom;
    var header := ValueStart(fixed, IndexRoot(fixed).value).value + 16;
    var entries := IndexEntries(fixed, header).value;
    var e := Named(entries, ROOT_HEALTH)[0];
    assert e in entries;
    var at := EntryFound(fixed, header + U32(fixed, header), header + U32(fixed, header + 4), e);
    EntryBytes(fixed, at, header + U32(fixed, header + 4), e);
  }

  lemma EntryBytes(fixed: Bytes, at: nat, end: nat, e: IndexEntry)
    requires at + 16 <= end <= |fixed| && EntryAt(fixed, at, end) == Ok(e) && e.name == ROOT_HEALTH
    ensures e.flagsOffset == at + 72 && at + 104 <= |fixed| && NameAt(fixed, at + 82)
    ensures e.reference == U64(fixed, at) && e.parent == U64(fixed, at + 16) && U16(fixed, at + 12) <= 1
  {
    hide U64;
    var n := fixed[at + 80] as int * 2;
    assert n == 22 by { assert |e.name| == n; }
  }

  // ---------- the fields of the journal's record ----------

  /** An attribute of this type whose resident value starts at v, at least `least` bytes long. */
  predicate ValueAt(fixed: Bytes, attrs: seq<Attribute>, t: nat, typeCode: nat, v: nat) {
    && t < |attrs| && attrs[t].typeCode == typeCode && !attrs[t].nonresident
    && attrs[t].offset + 24 <= |fixed| && v == attrs[t].offset + U16(fixed, attrs[t].offset + 20)
  }

  /** The standard flags are the word at 32 of the only unnamed $STANDARD_INFORMATION; the
      name's are the word at 56 of a $FILE_NAME called $RootHealth in record 11. */
  lemma FieldBytes(fixed: Bytes, f: Fields) returns (s: nat, n: nat)
    requires |fixed| >= 48 && FlagOffsets(fixed) == Ok(f)
    ensures Attributes(fixed).Ok?
    ensures var attrs := Attributes(fixed).value;
            && ValueAt(fixed, attrs, s, 0x10, f.standard - 32) && attrs[s].nameLength == 0
            && (forall i :: 0 <= i < |attrs| && i != s && attrs[i].typeCode == 0x10 ==> attrs[i].nameLength > 0)
            && f.fileName >= 56 && ValueAt(fixed, attrs, n, 0x30, f.fileName - 56)
    ensures f.fileName + 32 <= |fixed| && NameAt(fixed, f.fileName + 10)
    ensures U64(fixed, f.fileName - 56) % 0x1_0000_0000_0000 == 11
  {
    hide Attributes, U64, U16, U32;
    AttributesInside(fixed);
    var attrs := Attributes(fixed).value;
    s := SoleUnnamed(attrs, AT_STANDARD_INFORMATION);
    n := NamedJournal(fixed, attrs);
    NameValue(fixed, attrs[n]);
    assert Inside(attrs[s], |fixed|) && Inside(attrs[n], |fixed|);
  }

  lemma NameValue(fixed: Bytes, a: Attribute)
    requires Inside(a, |fixed|) && IsJournalName(fixed, a) == Ok(true)
    ensures var v := ValueStart(fixed, a).value;
            v + 88 <= |fixed| && NameAt(fixed, v + 66) && U64(fixed, v) % 0x1_0000_0000_0000 == 11
  {
    hide U64, U16, U32;
    var v := ValueStart(fixed, a).value;
    var n := fixed[v + 64] as int * 2;
    assert |fixed[v + 66..v + 66 + n]| == n;
  }

  lemma {:induction false} SoleUnnamed(attrs: seq<Attribute>, typeCode: nat) returns (t: nat)
    requires |Unnamed(attrs, typeCode)| == 1
    ensures t < |attrs| && attrs[t] == Unnamed(attrs, typeCode)[0]
    ensures attrs[t].typeCode == typeCode && attrs[t].nameLength == 0
    ensures forall i :: 0 <= i < |attrs| && i != t && attrs[i].typeCode == typeCode ==> attrs[i].nameLength > 0
  {
    if attrs[0].typeCode == typeCode && attrs[0].nameLength == 0 {
      t := 0;
      NoneUnnamed(attrs[1..], typeCode);
    } else {
      t := SoleUnnamed(attrs[1..], typeCode);
      t := t + 1;
    }
  }

  lemma {:induction false} NoneUnnamed(attrs: seq<Attribute>, typeCode: nat)
    requires Unnamed(attrs, typeCode) == []
    ensures forall i :: 0 <= i < |attrs| && attrs[i].typeCode == typeCode ==> attrs[i].nameLength > 0
  {
    if attrs != [] { NoneUnnamed(attrs[1..], typeCode); }
  }

  lemma {:induction false} NamedJournal(fixed: Bytes, attrs: seq<Attribute>) returns (t: nat)
    requires AllInside(attrs, |fixed|) && JournalNames(fixed, attrs).Ok? && |JournalNames(fixed, attrs).value| == 1
    ensures t < |attrs| && attrs[t] == JournalNames(fixed, attrs).value[0]
    ensures Inside(attrs[t], |fixed|) && attrs[t].typeCode == AT_FILE_NAME && IsJournalName(fixed, attrs[t]) == Ok(true)
  {
    hide IsJournalName;
    if attrs[0].typeCode == AT_FILE_NAME && !attrs[0].nonresident && IsJournalName(fixed, attrs[0]) == Ok(true) {
      t := 0;
    } else {
      t := NamedJournal(fixed, attrs[1..]);
      t := t + 1;
    }
  }

  // ---------- the three copies together ----------

  /** Whenever the three copies are found: the key's child reference is the journal's record
      number with its sequence number above, its parent reference $Extend's own. */
  lemma FoundFlags(g: Geometry, image: Bytes, number: nat) returns (j: Bytes, x: Bytes, f: Fields, m: nat)
    requires FlagsOf(g, image, number).Ok? && number < 0x1_0000_0000_0000
    ensures ReadRecord(g, image, number) == Ok(j) && ReadRecord(g, image, 11) == Ok(x) && |j| >= 48 && |x| >= 48
    ensures f.standard + 4 <= |j| && f.fileName + 4 <= |j| && 72 <= m && m + 32 <= |x|
    ensures FlagsOf(g, image, number) == Ok(Flags(U32(j, f.standard), U32(j, f.fileName), U32(x, m)))
    ensures U16(x, m - 66) == U16(j, 16) && U64(x, m - 72) % 0x1_0000_0000_0000 == number
    ensures U16(x, m - 50) == U16(x, 16) && U64(x, m - 56) % 0x1_0000_0000_0000 == 11
    ensures NameAt(x, m + 10) && NameAt(j, f.fileName + 10)
    ensures FlagOffsets(j) == Ok(f) && IndexFlagOffset(x, U16(j, 16) * 0x1_0000_0000_0000 + number) == Ok(m)
  {
    hide FlagOffsets, IndexFlagOffset, ReadRecord, U16, U32, U64;
    j, x := ReadRecord(g, image, number).value, ReadRecord(g, image, EXTEND_RECORD).value;
    f := FlagOffsets(j).value;
    m := IndexFlagOffset(x, Reference(j, number)).value;
    KeyBytes(x, Reference(j, number), m);
    var _, _ := FieldBytes(j, f);
    TopWord(x, m - 72);
    TopWord(x, m - 56);
    SplitReference(U16(j, 16), number, U16(x, m - 66), U64(x, m - 72));
    SplitReference(U16(x, 16), 11, U16(x, m - 50), U64(x, m - 56));
  }

  /** The two top bytes of a reference are its sequence number. */
  lemma TopWord(s: Bytes, o: nat)
    requires o + 8 <= |s|
    ensures U64(s, o) / 0x1_0000_0000_0000 == U16(s, o + 6)
  {
    var low := U32(s, o) + 0x1_0000_0000 * U16(s, o + 4);
    assert U64(s, o) == low + 0x1_0000_0000_0000 * U16(s, o + 6);
  }

  lemma SplitReference(sequence: nat, number: nat, top: nat, word: nat)
    requires number < 0x1_0000_0000_0000 && word == sequence * 0x1_0000_0000_0000 + number
    requires word / 0x1_0000_0000_0000 == top
    ensures top == sequence && word % 0x1_0000_0000_0000 == number
  {
  }
}
