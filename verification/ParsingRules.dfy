/** The parsing rules of both programs, each read off the bytes: which records, attributes,
    names, values and index nodes are accepted, and what is read from them. */
module ParsingRules {
  import opened Bytes
  import opened FileRecords
  import opened FlagCopies
  import FX = FixtureRecords
  import MS = MultiSector
  import Bitmap
  import Runlist

  // ---------- multi-sector headers ----------

  /** Both decoders and the validator's encoder accept a header exactly when its signature
      fits, its length is whole sectors, one array entry stands for each of them and one for
      the number, and the array lies past byte 8 inside the record. */
  lemma HeaderRule(s: Bytes, ss: nat, magic: Bytes)
    requires ss >= 512
    ensures MS.HeaderOk(s, ss, magic) <==>
            && |magic| == 4 && |s| >= 4 && s[0] == magic[0] && s[1] == magic[1] && s[2] == magic[2] && s[3] == magic[3]
            && |s| >= ss && |s| % ss == 0 && U16(s, 6) == |s| / ss + 1
            && 8 <= U16(s, 4) && U16(s, 4) + 2 * U16(s, 6) <= |s|
  {
    if |magic| == 4 && |s| >= 4 {
      assert s[..4] == [s[0], s[1], s[2], s[3]] && magic == [magic[0], magic[1], magic[2], magic[3]];
    }
  }

  // ---------- the validator's attributes ----------

  /** An attribute header: room for sixteen bytes, a length of whole eights from 24 on that
      stays in the used bytes, a residency byte of 0 or 1, and a name inside it. */
  lemma AttributeRule(fixed: Bytes, used: nat, o: nat)
    requires o + 4 <= used <= |fixed|
    ensures HeaderAt(fixed, used, o).Ok? <==>
            && o + 16 <= used && 24 <= U32(fixed, o + 4) && U32(fixed, o + 4) % 8 == 0
            && o + U32(fixed, o + 4) <= used && fixed[o + 8] <= 1
            && (fixed[o + 9] > 0 ==>
                && 16 <= U16(fixed, o + 10)
                && U16(fixed, o + 10) + 2 * (fixed[o + 9] as int) <= U32(fixed, o + 4))
    ensures HeaderAt(fixed, used, o).Ok? ==>
              var a := HeaderAt(fixed, used, o).value;
              && a.typeCode == U32(fixed, o) && a.offset == o && a.length == U32(fixed, o + 4)
              && (a.nonresident <==> fixed[o + 8] == 1) && a.flags == U16(fixed, o + 12)
              && var n, from := 2 * (fixed[o + 9] as int), o + U16(fixed, o + 10);
                 Name(fixed, a) == if n == 0 then [] else fixed[from..from + n]
  {
    hide U16, U32;
  }

  /** The chain starts at the word at 20, not before 48, and inside the used bytes at 24. */
  lemma ChainRule(fixed: Bytes)
    requires |fixed| >= 48
    ensures Attributes(fixed)
         == if 48 <= U16(fixed, 20) < U32(fixed, 24) <= |fixed|
            then ParseFrom(fixed, U32(fixed, 24), U16(fixed, 20)) else Err
  {
    hide U16, U32, ParseFrom;
  }

  // ---------- resident values and names ----------

  /** A resident value: offset at 20, length at 16, past the 24-byte header, inside the attribute. */
  lemma ValueRule(fixed: Bytes, a: Attribute)
    requires Inside(a, |fixed|)
    ensures ValueStart(fixed, a)
         == if && !a.nonresident && 24 <= U16(fixed, a.offset + 20)
               && U16(fixed, a.offset + 20) + U32(fixed, a.offset + 16) <= a.length
            then Ok(a.offset + U16(fixed, a.offset + 20)) else Err
  {
    hide U16, U32;
  }

  /** A $FILE_NAME value of at least 66 bytes that holds its name; it is the journal's when the
      name is $RootHealth and the low six bytes of the parent are 11. */
  lemma NameRule(fixed: Bytes, a: Attribute)
    requires Inside(a, |fixed|)
    ensures IsJournalName(fixed, a).Ok? <==>
            && ValueStart(fixed, a).Ok? && 66 <= U32(fixed, a.offset + 16)
            && 66 + 2 * (fixed[ValueStart(fixed, a).value + 64] as int) <= U32(fixed, a.offset + 16)
    ensures IsJournalName(fixed, a) == Ok(true) <==>
            && IsJournalName(fixed, a).Ok?
            && var v := ValueStart(fixed, a).value;
               && fixed[v + 64] == 11 && U64(fixed, v) % 0x1_0000_0000_0000 == 11
               && fixed[v + 66..v + 88] == [0x24, 0, 0x52, 0, 0x6F, 0, 0x6F, 0, 0x74, 0, 0x48, 0,
                                            0x65, 0, 0x61, 0, 0x6C, 0, 0x74, 0, 0x68, 0]
  {
    hide U16, U32, U64;
    if IsJournalName(fixed, a).Ok? {
      var v := ValueStart(fixed, a).value;
      var n := fixed[v + 64] as int * 2;
      assert |fixed[v + 66..v + 66 + n]| == n;
    }
  }

  // ---------- the index ----------

  /** $Extend: in use and a directory, no base record, no attribute list, and no $I30 of the
      allocation or bitmap types. */
  lemma ExtendRule(fixed: Bytes, attrs: seq<Attribute>)
    requires |fixed| >= 48 && AllInside(attrs, |fixed|)
    ensures ExtendOk(fixed, attrs) <==>
            && U16(fixed, 22) % 2 == 1 && U16(fixed, 22) / 2 % 2 == 1 && U64(fixed, 32) == 0
            && forall i :: 0 <= i < |attrs| ==>
                 && attrs[i].typeCode != 0x20
                 && ((attrs[i].typeCode == 0xA0 || attrs[i].typeCode == 0xB0) ==>
                     Name(fixed, attrs[i]) != [0x24, 0, 0x49, 0, 0x33, 0, 0x30, 0])
  {
    hide U64;
    NamedNone(fixed, attrs, AT_INDEX_ALLOCATION, I30);
    NamedNone(fixed, attrs, AT_BITMAP, I30);
  }

  lemma {:induction false} NamedNone(fixed: Bytes, attrs: seq<Attribute>, typeCode: nat, name: Bytes)
    requires AllInside(attrs, |fixed|)
    ensures WithName(fixed, attrs, typeCode, name) == [] <==>
            forall i :: 0 <= i < |attrs| ==> attrs[i].typeCode != typeCode || Name(fixed, attrs[i]) != name
  {
    if attrs != [] { NamedNone(fixed, attrs[1..], typeCode, name); }
  }

  /** The root: the one $I30 of its type, resident, of at least 32 bytes, keyed by file name
      under collation 1, with index blocks of 512 to 65536 bytes. */
  lemma RootRule(fixed: Bytes, attrs: seq<Attribute>, root: Attribute)
    requires |fixed| >= 48 && Attributes(fixed) == Ok(attrs) && AllInside(attrs, |fixed|)
    ensures IndexRoot(fixed) == Ok(root) <==>
            && ExtendOk(fixed, attrs) && WithName(fixed, attrs, 0x90, [0x24, 0, 0x49, 0, 0x33, 0, 0x30, 0]) == [root]
            && Inside(root, |fixed|) && ValueStart(fixed, root).Ok? && 32 <= U32(fixed, root.offset + 16)
            && var v := ValueStart(fixed, root).value;
               && U32(fixed, v) == 0x30 && U32(fixed, v + 4) == 1 && 512 <= U32(fixed, v + 8) <= 65536
  {
    hide U16, U32, ExtendOk, Attributes;
    AttributesInside(fixed);
    var roots := WithName(fixed, attrs, AT_INDEX_ROOT, I30);
    if |roots| == 1 { assert roots == [roots[0]]; }
  }

  /** The node header: entries at least 16 bytes in, used no less than that and no more than
      what is allocated, and all of it in the record. */
  lemma NodeRule(index: Bytes, header: nat)
    ensures IndexEntries(index, header)
         == if && header + 16 <= |index| && 16 <= U32(index, header) <= U32(index, header + 4) <= U32(index, header + 8)
               && header + U32(index, header + 4) <= |index|
            then EntriesFrom(index, header + U32(index, header), header + U32(index, header + 4)) else Err
  {
    hide U32, EntriesFrom;
  }

  /** One entry of a node: the terminal one, with flag 2 and no key, must end it; any other has
      no flag but 1, a length of whole eights and a key of at least 66 bytes that holds its name. */
  lemma EntryRule(index: Bytes, o: nat, end: nat)
    requires o + 16 <= end <= |index|
    ensures Terminal(index, o, end) <==>
            && 16 <= U16(index, o + 8) && U16(index, o + 8) % 8 == 0 && o + U16(index, o + 8) == end
            && (U16(index, o + 12) == 2 || U16(index, o + 12) == 3) && U16(index, o + 10) == 0
    ensures EntryAt(index, o, end).Ok? <==>
            && U16(index, o + 8) % 8 == 0
            && 16 + U16(index, o + 10) <= U16(index, o + 8) && o + U16(index, o + 8) <= end
            && (U16(index, o + 12) == 0 || U16(index, o + 12) == 1)
            && 66 + 2 * (if 66 <= U16(index, o + 10) && o + 81 <= end then index[o + 80] as int else 0)
               <= U16(index, o + 10)
    ensures EntryAt(index, o, end).Ok? ==>
              && o + 82 + 2 * (index[o + 80] as int) <= |index|
              && var name := index[o + 82..o + 82 + 2 * (index[o + 80] as int)];
                 EntryAt(index, o, end).value == IndexEntry(U64(index, o), U64(index, o + 16), name, o + 72)
  {
    hide U16, U64;
  }

  // ---------- the fixture builder's attributes ----------

  /** An attribute: 24 bytes at least, inside the record, its body read from its own bytes. */
  lemma BuilderAttributeRule(record: Bytes, o: nat)
    ensures FX.AttrAt(record, o).Ok? <==>
            && o + 24 <= |record| && 24 <= U32(record, o + 4) && o + U32(record, o + 4) <= |record|
            && FX.BodyOf(record[o..o + U32(record, o + 4)]).Ok?
    ensures FX.AttrAt(record, o).Ok? ==>
              FX.AttrAt(record, o).value
              == FX.Attr(o, U32(record, o + 4), FX.BodyOf(record[o..o + U32(record, o + 4)]).value)
  {
    hide U32, FX.BodyOf;
  }

  /** Its name: none, or inside the attribute from byte 24 on. */
  lemma BuilderNameRule(s: Bytes)
    requires |s| >= 24
    ensures FX.NameOf(s)
         == if s[9] == 0 then Ok([])
            else if 24 <= U16(s, 10) && U16(s, 10) + 2 * (s[9] as int) <= |s|
            then Ok(s[U16(s, 10)..U16(s, 10) + 2 * (s[9] as int)]) else Err
  {
    hide U16;
  }

  /** Its body: mapped when byte 8 is set, with pairs from the word at 32 and at least 64 bytes
      (72 when compressed or sparse); else resident, with the value the words at 16 and 20 give. */
  lemma BuilderBodyRule(s: Bytes)
    requires |s| >= 24
    ensures FX.BodyOf(s).Ok? <==>
            && FX.NameOf(s).Ok?
            && if s[8] != 0
               then && |s| >= 64 && 64 <= U16(s, 32) < |s|
                    && (U16(s, 12) % 2 == 1 || U16(s, 12) >= 0x8000 ==> |s| >= 72)
                    && Runlist.Runs(s[U16(s, 32)..], U64(s, 16), false).Ok?
               else 24 <= U16(s, 20) && U16(s, 20) + U32(s, 16) <= |s|
    ensures FX.BodyOf(s).Ok? ==>
              FX.BodyOf(s).value
              == if s[8] != 0
                 then FX.Body(U32(s, 0), FX.NameOf(s).value, true, U16(s, 12), U64(s, 16), U16(s, 32), U64(s, 48),
                              Runlist.Runs(s[U16(s, 32)..], U64(s, 16), false).value, [])
                 else FX.Body(U32(s, 0), FX.NameOf(s).value, false, U16(s, 12), 0, 0, U32(s, 16), [],
                              s[U16(s, 20)..U16(s, 20) + U32(s, 16)])
  {
    hide U16, U32, U64, Runlist.Runs, FX.NameOf;
  }

  // ---------- bits ----------

  /** Bit c of a bitmap: byte c / 8, least significant bit first. */
  lemma BitRule(bitmap: Bytes, c: nat)
    ensures Bitmap.IsSet(bitmap, c) <==>
            && c / 8 < |bitmap|
            && var k, b := c % 8, bitmap[c / 8] as int;
               (if k == 0 then b else if k == 1 then b / 2 else if k == 2 then b / 4 else if k == 3 then b / 8
                else if k == 4 then b / 16 else if k == 5 then b / 32 else if k == 6 then b / 64 else b / 128) % 2 == 1
  {
  }
}
