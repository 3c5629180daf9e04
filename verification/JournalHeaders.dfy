/** The two superblock slots and the entry area of a released journal, read through
    its run list. */
module JournalHeaders {
  import opened Bytes
  import opened Runlist
  import opened Streams
  import opened Superblock
  import RS = RecordStore

  /** Both superblock slots: generations 1 and 2 with one UUID. */
  function Slots(sha256: Bytes -> Digest, serial: nat, uuid: Uuid): (r: Bytes)
    ensures |r| == ENTRY_AREA_START
  {
    Block(sha256, Slot(1, serial), uuid) + Block(sha256, Slot(2, serial), uuid)
  }

  /** What create_seed writes: the slots, then a zero-filled entry area. */
  function Seed(sha256: Bytes -> Digest, serial: nat, uuid: Uuid): (r: Bytes)
    ensures |r| == JOURNAL_SIZE
  {
    Slots(sha256, serial, uuid) + Zeros(JOURNAL_SIZE - ENTRY_AREA_START)
  }

  /** The binding of a slot on a volume of 512-byte sectors. */
  function Slot(generation: nat, serial: nat): Binding {
    Binding(generation, RS.SECTOR, serial)
  }

  /** create_seed: both slots written into a zero-filled file. */
  method CreateSeed(sha256: Bytes -> Digest, serial: nat, journalId: Uuid) returns (r: Result<Bytes>)
    ensures r == if serial < Pow256(8) then Ok(Seed(sha256, serial, journalId)) else Err
  {
    hide Block, Put;
    assert Pow256(8) == 256 * (256 * (256 * (256 * (256 * (256 * (256 * (256 * Pow256(0))))))));
    assert Pow256(4) == 256 * (256 * (256 * (256 * Pow256(0))));
    var first := BuildEmptySuperblock(sha256, Slot(1, serial), journalId);
    var second := BuildEmptySuperblock(sha256, Slot(2, serial), journalId);
    if first.Err? || second.Err? { return Err; }
    var file := Zeros(JOURNAL_SIZE);
    file := Put(file, 0, first.value);
    file := Put(file, SUPERBLOCK_SIZE, second.value);
    assert file == Seed(sha256, serial, journalId);
    r := Ok(file);
  }

  /** Byte x of the stream is readable and is the byte of s that starts at lo. */
  predicate Shows(image: Bytes, runs: seq<Run>, lo: nat, s: Bytes, x: nat)
    requires lo <= x < lo + |s|
  {
    var p := Locate(runs, RS.CLUSTER, x);
    Readable(image, p) && ByteAt(image, p) == s[x - lo]
  }

  /** The stream holds s from offset lo on. */
  ghost predicate Holds(image: Bytes, runs: seq<Run>, lo: nat, s: Bytes) {
    forall x :: lo <= x < lo + |s| ==> Shows(image, runs, lo, s, x)
  }

  /** A read returns s exactly when the stream holds s there. */
  lemma ReadIs(image: Bytes, runs: seq<Run>, lo: nat, s: Bytes)
    requires Contiguous(runs, 0) && |s| > 0
    ensures ReadFrom(image, runs, RS.CLUSTER, lo, lo + |s|) == Ok(s) <==> Holds(image, runs, lo, s)
  {
    hide ReadFrom, Locate;
    ReadMeaning(image, runs, 0, RS.CLUSTER, lo, lo + |s|);
    var r := ReadFrom(image, runs, RS.CLUSTER, lo, lo + |s|);
    if Holds(image, runs, lo, s) {
      forall x | lo <= x < lo + |s|
        ensures Readable(image, Locate(runs, RS.CLUSTER, x))
      {
        assert Shows(image, runs, lo, s, x);
      }
      assert AllReadable(image, runs, RS.CLUSTER, lo, lo + |s|);
      forall k | 0 <= k < |s|
        ensures r.value[k] == s[k]
      {
        assert Shows(image, runs, lo, s, lo + k);
        assert r.value[(lo + k) - lo] == ByteAt(image, Locate(runs, RS.CLUSTER, lo + k));
      }
      assert r.value == s;
    }
  }

  lemma HoldsConcat(image: Bytes, runs: seq<Run>, lo: nat, s: Bytes, t: Bytes)
    ensures Holds(image, runs, lo, s + t) <==> Holds(image, runs, lo, s) && Holds(image, runs, lo + |s|, t)
  {
    hide Locate;
    if Holds(image, runs, lo, s + t) {
      forall x | lo <= x < lo + |s| ensures Shows(image, runs, lo, s, x) { assert Shows(image, runs, lo, s + t, x); }
      var m := lo + |s|;
      forall x | m <= x < m + |t| ensures Shows(image, runs, m, t, x) { assert Shows(image, runs, lo, s + t, x); }
    }
    if Holds(image, runs, lo, s) && Holds(image, runs, lo + |s|, t) {
      forall x | lo <= x < lo + |s + t|
        ensures Shows(image, runs, lo, s + t, x)
      {
        assert if x < lo + |s| then Shows(image, runs, lo, s, x) else Shows(image, runs, lo + |s|, t, x);
      }
    }
  }

  /** The scan of the entry area in chunks of four mebibytes. */
  method EntryAreaIsZero(image: Bytes, runs: seq<Run>) returns (zero: bool)
    requires Contiguous(runs, 0)
    ensures zero <==> Holds(image, runs, ENTRY_AREA_START, Zeros(JOURNAL_SIZE - ENTRY_AREA_START))
  {
    hide ReadFrom, Holds, Zeros;
    var cursor := ENTRY_AREA_START;
    assert Holds(image, runs, ENTRY_AREA_START, Zeros(0)) by { HoldsNothing(image, runs, ENTRY_AREA_START, Zeros(0)); }
    while cursor < JOURNAL_SIZE
      invariant ENTRY_AREA_START <= cursor <= JOURNAL_SIZE
      invariant Holds(image, runs, ENTRY_AREA_START, Zeros(cursor - ENTRY_AREA_START))
    {
      var take := if JOURNAL_SIZE - cursor < 0x40_0000 then JOURNAL_SIZE - cursor else 0x40_0000;
      var payload := ReadStream(image, runs, RS.CLUSTER, cursor, take);
      ReadIs(image, runs, cursor, Zeros(take));
      var done := cursor - ENTRY_AREA_START;
      HoldsConcat(image, runs, ENTRY_AREA_START, Zeros(done), Zeros(take));
      ZerosAdd(done, take);
      if payload.Ok? { ZeroIsZeros(payload.value); }
      if payload.Err? || !AllZero(payload.value) {
        HoldsConcat(image, runs, ENTRY_AREA_START, Zeros(done + take), Zeros(JOURNAL_SIZE - cursor - take));
        ZerosAdd(done + take, JOURNAL_SIZE - cursor - take);
        return false;
      }
      cursor := cursor + take;
    }
    zero := true;
  }

  lemma HoldsNothing(image: Bytes, runs: seq<Run>, lo: nat, s: Bytes)
    requires s == []
    ensures Holds(image, runs, lo, s)
  {
  }

  lemma ZerosAdd(a: nat, b: nat)
    ensures Zeros(a) + Zeros(b) == Zeros(a + b)
  {
  }

  /** The whole stream a validated journal holds, with or without its entry area. */
  function Expected(sha256: Bytes -> Digest, serial: nat, uuid: Uuid, withEntries: bool): Bytes {
    if withEntries then Seed(sha256, serial, uuid) else Slots(sha256, serial, uuid)
  }

  /** validate_empty_headers accepts with a UUID exactly when that UUID is not zero and
      the stream holds what create_seed wrote for it. */
  method ValidateEmptyHeaders(sha256: Bytes -> Digest, image: Bytes, runs: seq<Run>, serial: nat,
      requireZeroEntryArea: bool)
    returns (r: Result<Uuid>)
    requires Contiguous(runs, 0) && serial < Pow256(8)
    ensures forall uuid: Uuid ::
              r == Ok(uuid) <==> (!AllZero(uuid)
                  && Holds(image, runs, 0, Expected(sha256, serial, uuid, requireZeroEntryArea)))
  {
    hide ReadFrom, Holds, Block, AllZero, Zeros;
    assert Pow256(8) == 256 * (256 * (256 * (256 * (256 * (256 * (256 * (256 * Pow256(0))))))));
    assert Pow256(4) == 256 * (256 * (256 * (256 * Pow256(0))));
    var headers := ReadStream(image, runs, RS.CLUSTER, 0, ENTRY_AREA_START);
    forall uuid: Uuid
      ensures Holds(image, runs, 0, Slots(sha256, serial, uuid)) <==> headers == Ok(Slots(sha256, serial, uuid))
    {
      ReadIs(image, runs, 0, Slots(sha256, serial, uuid));
    }
    forall uuid: Uuid { ExpectedSplits(sha256, image, runs, serial, uuid, requireZeroEntryArea); }
    if headers.Err? { return Err; }
    var one, two := headers.value[..SUPERBLOCK_SIZE], headers.value[SUPERBLOCK_SIZE..ENTRY_AREA_START];
    forall uuid: Uuid
      ensures headers.value == Slots(sha256, serial, uuid) <==>
          one == Block(sha256, Slot(1, serial), uuid) && two == Block(sha256, Slot(2, serial), uuid)
    {
      TwoSlots(sha256, headers.value, serial, uuid);
    }
    var first := ParseEmptySuperblock(sha256, one, Slot(1, serial));
    if first.Err? { return Err; }
    var second := ParseEmptySuperblock(sha256, two, Slot(2, serial));
    if second.Err? { return Err; }
    if first.value != second.value { return Err; }
    if requireZeroEntryArea {
      var zero := EntryAreaIsZero(image, runs);
      if !zero { return Err; }
    }
    r := first;
  }

  lemma TwoSlots(sha256: Bytes -> Digest, h: Bytes, serial: nat, uuid: Uuid)
    requires |h| == ENTRY_AREA_START
    ensures h == Slots(sha256, serial, uuid) <==>
            h[..SUPERBLOCK_SIZE] == Block(sha256, Slot(1, serial), uuid)
            && h[SUPERBLOCK_SIZE..ENTRY_AREA_START] == Block(sha256, Slot(2, serial), uuid)
  {
    hide Block;
    SplitEq(h, 0, SUPERBLOCK_SIZE, ENTRY_AREA_START, Block(sha256, Slot(1, serial), uuid),
        Block(sha256, Slot(2, serial), uuid));
    assert h[0..ENTRY_AREA_START] == h && h[0..SUPERBLOCK_SIZE] == h[..SUPERBLOCK_SIZE];
  }

  lemma ExpectedSplits(sha256: Bytes -> Digest, image: Bytes, runs: seq<Run>, serial: nat, uuid: Uuid,
      withEntries: bool)
    ensures Holds(image, runs, 0, Expected(sha256, serial, uuid, withEntries)) <==>
            Holds(image, runs, 0, Slots(sha256, serial, uuid))
            && (withEntries ==> Holds(image, runs, ENTRY_AREA_START, Zeros(JOURNAL_SIZE - ENTRY_AREA_START)))
  {
    hide Block, Holds, Zeros;
    HoldsConcat(image, runs, 0, Slots(sha256, serial, uuid), Zeros(JOURNAL_SIZE - ENTRY_AREA_START));
  }

  /** The seed on its bytes: generation 1 in the first slot, 2 in the second, the volume's
      sector size and serial and the one UUID in both, and zeros from byte 8192 on. */
  lemma SeedBytes(sha256: Bytes -> Digest, serial: nat, uuid: Uuid)
    requires serial < 0x1_0000_0000_0000_0000
    ensures var s := Seed(sha256, serial, uuid);
            && |s| == 134217728
            && U64(s, 0x20) == 1 && U64(s, 0x1020) == 2
            && U32(s, 0x18) == U32(s, 0x1018) == 512
            && U64(s, 0x28) == U64(s, 0x1028) == serial
            && s[0x30..0x40] == s[0x1030..0x1040] == uuid
            && (forall i :: 8192 <= i < |s| ==> s[i] == 0)
  {
    hide U32, U64, Block;
    var s := Seed(sha256, serial, uuid);
    var one, two := Block(sha256, Slot(1, serial), uuid), Block(sha256, Slot(2, serial), uuid);
    BlockIs(sha256, one, Slot(1, serial), uuid);
    BlockIs(sha256, two, Slot(2, serial), uuid);
    SameWords(s, one, 0);
    SameWords(s, two, 4096);
  }

  /** The binding words of a slot, read in place. */
  lemma SameWords(s: Bytes, slot: Bytes, at: nat)
    requires |slot| == 4096 && at + 4096 <= |s| && forall i :: 0 <= i < 4096 ==> s[at + i] == slot[i]
    ensures U32(s, at + 0x18) == U32(slot, 0x18) && U64(s, at + 0x20) == U64(slot, 0x20)
    ensures U64(s, at + 0x28) == U64(slot, 0x28) && s[at + 0x30..at + 0x40] == slot[0x30..0x40]
  {
    assert forall i :: 0x18 <= i < 0x30 ==> s[at + i] == slot[i];
  }
}
