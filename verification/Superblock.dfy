/** The EMPTY superblock of the journal's write-ahead log: printer and parser.

    SHA-256 is any function from bytes to 32 bytes. */
module Superblock {
  import opened Bytes

  const SUPERBLOCK_SIZE: nat := 4096
  const DIGEST_OFFSET: nat := 0xFE0
  const JOURNAL_SIZE: nat := 0x800_0000
  const ENTRY_AREA_START: nat := 8192
  const MAX_TARGET_BYTES: nat := 0x640_0000
  const MAX_ENTRY_COUNT: nat := 4096
  /** b"T1ROOTHEALTHWAL\0" */
  const MAGIC: Bytes :=
    [0x54, 0x31, 0x52, 0x4F, 0x4F, 0x54, 0x48, 0x45, 0x41, 0x4C, 0x54, 0x48, 0x57, 0x41, 0x4C, 0]

  type Digest = d: Bytes | |d| == 32 witness [0, 0, 0, 0, 0, 0, 0, 0, 0, 0, 0, 0, 0, 0, 0, 0,
                                              0, 0, 0, 0, 0, 0, 0, 0, 0, 0, 0, 0, 0, 0, 0, 0]
  type Uuid = u: Bytes | |u| == 16 witness [0, 0, 0, 0, 0, 0, 0, 0, 0, 0, 0, 0, 0, 0, 0, 0]

  /** What a superblock is bound to. */
  datatype Binding = Binding(generation: nat, sectorSize: nat, serial: nat)

  predicate Packable(b: Binding) {
    b.generation < Pow256(8) && b.sectorSize < Pow256(4) && b.serial < Pow256(8)
  }

  lemma PackableIs(b: Binding)
    ensures Packable(b) <==> b.generation < 0x1_0000_0000_0000_0000 && b.sectorSize < 0x1_0000_0000
                             && b.serial < 0x1_0000_0000_0000_0000
  {
    assert Pow256(8) == 256 * (256 * (256 * (256 * (256 * (256 * (256 * (256 * Pow256(0))))))));
    assert Pow256(4) == 256 * (256 * (256 * (256 * Pow256(0))));
  }

  // ---------- the layout ----------

  /** Bytes 0x00 to 0x30. */
  function Identity(b: Binding): (r: Bytes)
    ensures |r| == 0x30
  {
    MAGIC + ToLe(1, 4) + ToLe(SUPERBLOCK_SIZE, 4) + ToLe(b.sectorSize, 4) + ToLe(0, 4)
    + ToLe(b.generation, 8) + ToLe(b.serial, 8)
  }

  /** Bytes 0x40 to 0xA8: no transaction, and the size policy. */
  function Policy(): (r: Bytes)
    ensures |r| == 0x68
  {
    Zeros(16) + ToLe(JOURNAL_SIZE, 8) + ToLe(ENTRY_AREA_START, 8) + ToLe(0, 8) + ToLe(0, 8) + ToLe(0, 8)
    + Zeros(32) + ToLe(MAX_TARGET_BYTES, 8) + ToLe(0, 4) + ToLe(MAX_ENTRY_COUNT, 4)
  }

  function Body(b: Binding, uuid: Uuid): (r: Bytes)
    ensures |r| == DIGEST_OFFSET
  {
    Identity(b) + uuid + Policy() + Zeros(DIGEST_OFFSET - 0xA8)
  }

  function Block(sha256: Bytes -> Digest, b: Binding, uuid: Uuid): (r: Bytes)
    ensures |r| == SUPERBLOCK_SIZE
  {
    Body(b, uuid) + sha256(Body(b, uuid))
  }

  // ---------- the printer ----------

  lemma PutNext(done: Bytes, n: nat, field: Bytes)
    requires |field| <= n
    ensures Put(done + Zeros(n), |done|, field) == (done + field) + Zeros(n - |field|)
  {
  }

  /** One field at the end of what is done; the block is zeros from there on. */
  method Pack(block: Bytes, ghost done: Bytes, offset: nat, field: Bytes) returns (r: Bytes)
    requires |block| == SUPERBLOCK_SIZE && offset == |done| && offset + |field| <= SUPERBLOCK_SIZE
    requires block == done + Zeros(SUPERBLOCK_SIZE - |done|)
    ensures |r| == SUPERBLOCK_SIZE && r == (done + field) + Zeros(SUPERBLOCK_SIZE - |done + field|)
  {
    PutNext(done, SUPERBLOCK_SIZE - |done|, field);
    r := Put(block, offset, field);
  }

  /** build_empty_superblock: every field in place, then the digest of what precedes it. */
  method BuildEmptySuperblock(sha256: Bytes -> Digest, b: Binding, journalUuid: Uuid) returns (r: Result<Bytes>)
    ensures r == if Packable(b) then Ok(Block(sha256, b, journalUuid)) else Err
    ensures r.Ok? <==> b.generation < 0x1_0000_0000_0000_0000 && b.sectorSize < 0x1_0000_0000
                       && b.serial < 0x1_0000_0000_0000_0000
  {
    assert Packable(b) <==> b.generation < 0x1_0000_0000_0000_0000 && b.sectorSize < 0x1_0000_0000
                            && b.serial < 0x1_0000_0000_0000_0000 by { PackableIs(b); }
    hide ToLe, Pow256, Put, Packable;
    if !Packable(b) { return Err; }
    ghost var done: Bytes := [];
    var block := Zeros(SUPERBLOCK_SIZE);
    assert block == done + Zeros(SUPERBLOCK_SIZE);
    block, done := PackIdentity(block, b);
    assert Identity(b) == done;
    block := Pack(block, done, 0x030, journalUuid);
    done := done + journalUuid;
    block, done := PackPolicy(block, done);
    var digest := sha256(block[..DIGEST_OFFSET]);
    BodyIs(block, done, b, journalUuid);
    block := Put(block, DIGEST_OFFSET, digest);
    assert block == Body(b, journalUuid) + digest;
    r := Ok(block);
  }

  lemma BodyIs(block: Bytes, done: Bytes, b: Binding, uuid: Uuid)
    requires |block| == SUPERBLOCK_SIZE && done == Identity(b) + uuid + Policy()
    requires block == done + Zeros(SUPERBLOCK_SIZE - |done|)
    ensures block[..DIGEST_OFFSET] == Body(b, uuid)
  {
    hide Identity, Policy;
  }

  method PackIdentity(start: Bytes, b: Binding) returns (block: Bytes, ghost done: Bytes)
    requires |start| == SUPERBLOCK_SIZE && start == [] + Zeros(SUPERBLOCK_SIZE) && Packable(b)
    ensures |block| == SUPERBLOCK_SIZE && done == Identity(b) && block == done + Zeros(SUPERBLOCK_SIZE - |done|)
  {
    hide ToLe, Pow256, Zeros;
    done := [];
    block := Pack(start, done, 0x000, MAGIC);
    done := done + MAGIC;
    block := Pack(block, done, 0x010, ToLe(1, 4));
    done := done + ToLe(1, 4);
    block := Pack(block, done, 0x014, ToLe(SUPERBLOCK_SIZE, 4));
    done := done + ToLe(SUPERBLOCK_SIZE, 4);
    block := Pack(block, done, 0x018, ToLe(b.sectorSize, 4));
    done := done + ToLe(b.sectorSize, 4);
    block := Pack(block, done, 0x01C, ToLe(0, 4));
    done := done + ToLe(0, 4);
    block := Pack(block, done, 0x020, ToLe(b.generation, 8));
    done := done + ToLe(b.generation, 8);
    block := Pack(block, done, 0x028, ToLe(b.serial, 8));
    done := done + ToLe(b.serial, 8);
    assert done == [] + Identity(b);
  }

  method PackPolicy(start: Bytes, ghost before: Bytes) returns (block: Bytes, ghost done: Bytes)
    requires |start| == SUPERBLOCK_SIZE && |before| == 0x40 && start == before + Zeros(SUPERBLOCK_SIZE - 0x40)
    ensures |block| == SUPERBLOCK_SIZE && done == before + Policy() && block == done + Zeros(SUPERBLOCK_SIZE - |done|)
  {
    hide ToLe, Pow256, Zeros;
    done := before;
    block := Pack(start, done, 0x040, Zeros(16));
    done := done + Zeros(16);
    block := Pack(block, done, 0x050, ToLe(JOURNAL_SIZE, 8));
    done := done + ToLe(JOURNAL_SIZE, 8);
    block := Pack(block, done, 0x058, ToLe(ENTRY_AREA_START, 8));
    done := done + ToLe(ENTRY_AREA_START, 8);
    block := Pack(block, done, 0x060, ToLe(0, 8));
    done := done + ToLe(0, 8);
    block := Pack(block, done, 0x068, ToLe(0, 8));
    done := done + ToLe(0, 8);
    block := Pack(block, done, 0x070, ToLe(0, 8));
    done := done + ToLe(0, 8);
    block := Pack(block, done, 0x078, Zeros(32));
    done := done + Zeros(32);
    block := Pack(block, done, 0x098, ToLe(MAX_TARGET_BYTES, 8));
    done := done + ToLe(MAX_TARGET_BYTES, 8);
    block := Pack(block, done, 0x0A0, ToLe(0, 4));
    done := done + ToLe(0, 4);
    block := Pack(block, done, 0x0A4, ToLe(MAX_ENTRY_COUNT, 4));
    done := done + ToLe(MAX_ENTRY_COUNT, 4);
    assert done == before + Policy();
  }

  // ---------- the parser ----------

  lemma FieldU32(s: Bytes, o: nat, v: nat)
    requires o + 4 <= |s| && v < 0x1_0000_0000
    ensures U32(s, o) == v <==> s[o..o + 4] == ToLe(v, 4)
  {
    hide ToLe, U32;
    U32IsFromLe(s, o);
    assert Pow256(4) == 256 * (256 * (256 * (256 * Pow256(0))));
    FromLeOfToLe(v, 4);
    ToLeOfFromLe(s[o..o + 4]);
  }

  lemma FieldU64(s: Bytes, o: nat, v: nat)
    requires o + 8 <= |s| && v < 0x1_0000_0000_0000_0000
    ensures U64(s, o) == v <==> s[o..o + 8] == ToLe(v, 8)
  {
    hide ToLe, U64;
    U64IsFromLe(s, o);
    assert Pow256(8) == 256 * (256 * (256 * (256 * (256 * (256 * (256 * (256 * Pow256(0))))))));
    FromLeOfToLe(v, 8);
    ToLeOfFromLe(s[o..o + 8]);
  }

  /** The tests of parse_empty_superblock on bytes 0x00 to 0x30. */
  predicate IdentityOk(block: Bytes, b: Binding)
    requires |block| == SUPERBLOCK_SIZE
  {
    && block[..0x10] == MAGIC && U32(block, 0x10) == 1 && U32(block, 0x14) == SUPERBLOCK_SIZE
    && U32(block, 0x18) == b.sectorSize && U32(block, 0x1C) == 0
    && U64(block, 0x20) == b.generation && U64(block, 0x28) == b.serial
  }

  predicate AllZero(s: Bytes) {
    forall i :: 0 <= i < |s| ==> s[i] == 0
  }

  /** The tests on bytes 0x40 to 0xA8. */
  predicate PolicyOk(block: Bytes)
    requires |block| == SUPERBLOCK_SIZE
  {
    && AllZero(block[0x40..0x50]) && U64(block, 0x50) == JOURNAL_SIZE && U64(block, 0x58) == ENTRY_AREA_START
    && U64(block, 0x60) == 0 && U64(block, 0x68) == 0 && U64(block, 0x70) == 0
    && AllZero(block[0x78..0x98]) && U64(block, 0x98) == MAX_TARGET_BYTES
    && U32(block, 0xA0) == 0 && U32(block, 0xA4) == MAX_ENTRY_COUNT
  }

  lemma ZeroIsZeros(s: Bytes)
    ensures AllZero(s) <==> s == Zeros(|s|)
  {
  }

  /** A slice splits where its first part ends. */
  lemma SplitEq(s: Bytes, lo: nat, mid: nat, hi: nat, p: Bytes, q: Bytes)
    requires lo <= mid <= hi <= |s| && |p| == mid - lo && |q| == hi - mid
    ensures s[lo..hi] == p + q <==> s[lo..mid] == p && s[mid..hi] == q
  {
    assert s[lo..hi] == s[lo..mid] + s[mid..hi];
    if s[lo..hi] == p + q {
      assert (p + q)[..|p|] == p && (p + q)[|p|..] == q;
      assert s[lo..hi][..mid - lo] == s[lo..mid] && s[lo..hi][mid - lo..] == s[mid..hi];
    }
  }

  lemma IdentityIff(block: Bytes, b: Binding)
    requires |block| == SUPERBLOCK_SIZE && b.sectorSize < 0x1_0000_0000
    requires b.generation < 0x1_0000_0000_0000_0000 && b.serial < 0x1_0000_0000_0000_0000
    ensures IdentityOk(block, b) <==> block[0..0x30] == Identity(b)
  {
    hide ToLe, U32, U64;
    FieldU32(block, 0x10, 1);
    FieldU32(block, 0x14, SUPERBLOCK_SIZE);
    FieldU32(block, 0x18, b.sectorSize);
    FieldU32(block, 0x1C, 0);
    FieldU64(block, 0x20, b.generation);
    FieldU64(block, 0x28, b.serial);
    var p1 := MAGIC + ToLe(1, 4);
    var p2 := p1 + ToLe(SUPERBLOCK_SIZE, 4);
    var p3 := p2 + ToLe(b.sectorSize, 4);
    var p4 := p3 + ToLe(0, 4);
    var p5 := p4 + ToLe(b.generation, 8);
    SplitEq(block, 0, 0x10, 0x14, MAGIC, ToLe(1, 4));
    SplitEq(block, 0, 0x14, 0x18, p1, ToLe(SUPERBLOCK_SIZE, 4));
    SplitEq(block, 0, 0x18, 0x1C, p2, ToLe(b.sectorSize, 4));
    SplitEq(block, 0, 0x1C, 0x20, p3, ToLe(0, 4));
    SplitEq(block, 0, 0x20, 0x28, p4, ToLe(b.generation, 8));
    SplitEq(block, 0, 0x28, 0x30, p5, ToLe(b.serial, 8));
    assert block[0..0x10] == block[..0x10];
  }

  lemma PolicyIff(block: Bytes)
    requires |block| == SUPERBLOCK_SIZE
    ensures PolicyOk(block) <==> block[0x40..0xA8] == Policy()
  {
    hide ToLe, U32, U64, AllZero, Zeros;
    ZeroIsZeros(block[0x40..0x50]);
    ZeroIsZeros(block[0x78..0x98]);
    FieldU64(block, 0x50, JOURNAL_SIZE);
    FieldU64(block, 0x58, ENTRY_AREA_START);
    FieldU64(block, 0x60, 0);
    FieldU64(block, 0x68, 0);
    FieldU64(block, 0x70, 0);
    FieldU64(block, 0x98, MAX_TARGET_BYTES);
    FieldU32(block, 0xA0, 0);
    FieldU32(block, 0xA4, MAX_ENTRY_COUNT);
    var p1 := Zeros(16) + ToLe(JOURNAL_SIZE, 8);
    var p2 := p1 + ToLe(ENTRY_AREA_START, 8);
    var p3 := p2 + ToLe(0, 8);
    var p4 := p3 + ToLe(0, 8);
    var p5 := p4 + ToLe(0, 8);
    var p6 := p5 + Zeros(32);
    var p7 := p6 + ToLe(MAX_TARGET_BYTES, 8);
    var p8 := p7 + ToLe(0, 4);
    SplitEq(block, 0x40, 0x50, 0x58, Zeros(16), ToLe(JOURNAL_SIZE, 8));
    SplitEq(block, 0x40, 0x58, 0x60, p1, ToLe(ENTRY_AREA_START, 8));
    SplitEq(block, 0x40, 0x60, 0x68, p2, ToLe(0, 8));
    SplitEq(block, 0x40, 0x68, 0x70, p3, ToLe(0, 8));
    SplitEq(block, 0x40, 0x70, 0x78, p4, ToLe(0, 8));
    SplitEq(block, 0x40, 0x78, 0x98, p5, Zeros(32));
    SplitEq(block, 0x40, 0x98, 0xA0, p6, ToLe(MAX_TARGET_BYTES, 8));
    SplitEq(block, 0x40, 0xA0, 0xA4, p7, ToLe(0, 4));
    SplitEq(block, 0x40, 0xA4, 0xA8, p8, ToLe(MAX_ENTRY_COUNT, 4));
  }

  /** A block is the printed one exactly when its five stretches are. */
  lemma BlockSplits(sha256: Bytes -> Digest, block: Bytes, b: Binding, uuid: Uuid)
    requires |block| == SUPERBLOCK_SIZE
    ensures block == Block(sha256, b, uuid) <==>
            && block[0..0x30] == Identity(b) && block[0x30..0x40] == uuid && block[0x40..0xA8] == Policy()
            && block[0xA8..DIGEST_OFFSET] == Zeros(DIGEST_OFFSET - 0xA8)
            && block[DIGEST_OFFSET..SUPERBLOCK_SIZE] == sha256(block[..DIGEST_OFFSET])
  {
    hide Identity, Policy, Zeros;
    var i, u, p, z := Identity(b), uuid, Policy(), Zeros(DIGEST_OFFSET - 0xA8);
    SplitEq(block, 0, 0x30, 0x40, i, u);
    SplitEq(block, 0, 0x40, 0xA8, i + u, p);
    SplitEq(block, 0, 0xA8, DIGEST_OFFSET, i + u + p, z);
    SplitEq(block, 0, DIGEST_OFFSET, SUPERBLOCK_SIZE, Body(b, uuid), sha256(Body(b, uuid)));
    assert block[0..SUPERBLOCK_SIZE] == block && block[0..DIGEST_OFFSET] == block[..DIGEST_OFFSET];
  }

  /** No field of a block equals a value wider than it. */
  lemma WideRefused(block: Bytes, b: Binding)
    requires |block| == SUPERBLOCK_SIZE
    ensures IdentityOk(block, b) ==> Packable(b)
  {
    PackableIs(b);
    hide Packable;
  }

  /** parse_empty_superblock accepts a block exactly when it is the printed superblock of
      the expected binding and some non-zero UUID, and returns that UUID. */
  method ParseEmptySuperblock(sha256: Bytes -> Digest, block: Bytes, b: Binding) returns (r: Result<Uuid>)
    ensures forall uuid: Uuid ::
              r == Ok(uuid) <==> (Packable(b) && block == Block(sha256, b, uuid) && !AllZero(uuid))
    ensures r.Ok? ==> |block| == SUPERBLOCK_SIZE && r.value == block[0x30..0x40]
  {
    hide ToLe, U32, U64, IdentityOk, PolicyOk, Identity, Policy, Block, AllZero, Zeros;
    if |block| != SUPERBLOCK_SIZE { return Err; }
    PackableIs(b);
    WideRefused(block, b);
    hide Packable;
    var journalId: Uuid := block[0x30..0x40];
    forall uuid: Uuid
      ensures block == Block(sha256, b, uuid) ==> uuid == journalId
    {
      BlockSplits(sha256, block, b, uuid);
    }
    BlockSplits(sha256, block, b, journalId);
    if Packable(b) { IdentityIff(block, b); }
    if !IdentityOk(block, b) { return Err; }
    if AllZero(journalId) { return Err; }
    PolicyIff(block);
    if !PolicyOk(block) { return Err; }
    ZeroIsZeros(block[0xA8..DIGEST_OFFSET]);
    if !AllZero(block[0xA8..DIGEST_OFFSET]) { return Err; }
    var expectedDigest := sha256(block[..DIGEST_OFFSET]);
    if block[DIGEST_OFFSET..SUPERBLOCK_SIZE] != expectedDigest { return Err; }
    r := Ok(journalId);
  }

  // ---------- the layout, byte by byte ----------

  /** Bytes lo up to hi are zero. */
  predicate Blank(s: Bytes, lo: nat, hi: nat) {
    lo <= hi <= |s| && forall i :: lo <= i < hi ==> s[i] == 0
  }

  lemma BlankIs(s: Bytes, lo: nat, hi: nat)
    requires lo <= hi <= |s|
    ensures Blank(s, lo, hi) <==> AllZero(s[lo..hi])
  {
    if AllZero(s[lo..hi]) {
      forall i | lo <= i < hi ensures s[i] == 0 { assert s[lo..hi][i - lo] == 0; }
    }
  }

  /** A block is the printed one exactly when every field holds its value at its offset. */
  lemma BlockIs(sha256: Bytes -> Digest, block: Bytes, b: Binding, uuid: Uuid)
    requires |block| == 4096 && b.sectorSize < 0x1_0000_0000
    requires b.generation < 0x1_0000_0000_0000_0000 && b.serial < 0x1_0000_0000_0000_0000
    ensures block == Block(sha256, b, uuid) <==>
            && block[..16]
               == [0x54, 0x31, 0x52, 0x4F, 0x4F, 0x54, 0x48, 0x45, 0x41, 0x4C, 0x54, 0x48, 0x57, 0x41, 0x4C, 0]
            && U32(block, 0x10) == 1 && U32(block, 0x14) == 4096 && U32(block, 0x18) == b.sectorSize
            && U32(block, 0x1C) == 0 && U64(block, 0x20) == b.generation && U64(block, 0x28) == b.serial
            && block[0x30..0x40] == uuid && Blank(block, 0x40, 0x50)
            && U64(block, 0x50) == 134217728 && U64(block, 0x58) == 8192
            && U64(block, 0x60) == 0 && U64(block, 0x68) == 0 && U64(block, 0x70) == 0
            && Blank(block, 0x78, 0x98) && U64(block, 0x98) == 104857600
            && U32(block, 0xA0) == 0 && U32(block, 0xA4) == 4096 && Blank(block, 0xA8, 0xFE0)
            && block[0xFE0..4096] == sha256(block[..0xFE0])
  {
    hide ToLe, U32, U64, Identity, Policy, Block, AllZero, Zeros, Blank;
    BlockSplits(sha256, block, b, uuid);
    IdentityIff(block, b);
    PolicyIff(block);
    BlankIs(block, 0x40, 0x50);
    BlankIs(block, 0x78, 0x98);
    BlankIs(block, 0xA8, 0xFE0);
    ZeroIsZeros(block[0xA8..DIGEST_OFFSET]);
  }
}
