# Verified model of the roothealth journal storage stack and the runtime promotions

Two bodies of code share one property: they must leave persistent state right when anything
short of success happens around them.

**The raw NTFS stack behind the roothealth journal.** A validator
(`scripts/validate roothealth journal.py`) and a fixture builder
(`scripts/roothealth-repair/fixtures.py`) read and edit an NTFS image byte by byte. The model
follows their layers: multi-sector fixups (`MultiSector`), mapping pairs (`Runlist`,
`MappingEdit`), stream-to-device maps (`Streams`, `FixtureImage`), attribute chains
(`FileRecords`, `FixtureRecords`), bitmap bits (`Bitmap`), the ownership census (`Census`,
`JournalAllocation`), the write-ahead-log superblocks (`Superblock`, `JournalHeaders`), the
rewrite of the three cached copies of the journal's flags (`FlagCopies`, `RecordStore`,
`FlagRewrite`, with a volume that meets its hypotheses in `JournalVolume`), the cluster
relocation of `ensure_fragmented_data` (`PairReplacement`, `Volumes`, `Fragmentation`,
`VolumeKept`, `MoveCompletes`, `FragmentOutcome`, with a concrete failing image in `StaleBitmap`),
and the one-run corruption of `corrupt_unflagged_sparse_run` (`SparseRun`). Each loop is proved
equal to a small recursive reference, and the results for whole operations are proved about the
references. What the references read and write is stated on the bytes themselves in
`ParsingRules`, `ChainWalks`, `StreamReading`, `FlagPlaces`, `RecordPlaces` and `RecordEdit`, and
what a reported relocation says of an arbitrary image in `FragmentReport`.

**Crash-consistent promotion of runtime trees.** `PairPromotion` and `TriplePromotion` are state
machines with a program counter: renames, journal writes and journal removal are single steps,
copies and removals can stop half way, and the process can die between any two steps, recovery
included. The results are about every run.

Four smaller algorithms follow: `NativeClosure`, `TreeDigest`, `ChangedRanges`, `ChunkedSearch`.

Conventions. Bytes are integers below 256 and buffers are sequences of them; `Result` stands for
"returns or raises". `Span(k, unit)` is k times unit. A property that is false of the code as
written is kept as it is and its exact condition proved:

- `ensure_fragmented_data` on the bitmap's own record can succeed and leave the bitmap
  untruthful. The copy of the last bitmap cluster is taken before the two bits change, so when
  both changed bytes lie in that cluster the new copy is stale while every final check passes.
  `VolumeKept.FragmentKeepsVolume` proves consistency afterwards if and only if the record is not
  the bitmap's; `MoveCompletes.ChangeReported` proves exactly when such a run is accepted; and
  `StaleBitmap.BitmapLeftStale` gives an image of 4112 clusters on which it happens.
- `recover_promotion` cannot undo a swap interrupted after a new tree was moved in. Such states are
  reachable (`TriplePromotion.StuckReachable`), recovery returns if and only if none was moved in
  (`RecoveryExactly`), and a stuck machine stays stuck (`StuckForever`).
- `read_stream` of the validator rejects a request of zero bytes, the fixture builder's does not.

Hypotheses taken as preconditions of the large theorems: sectors of at least 512 bytes; fixup
arrays off the sector trailers (and, for record edits, between the fixed header and the
attributes); for the flag rewrite, distinct records and disjoint $MFT extents; for the relocation,
a set of live records whose extents are disjoint and in the volume, a truthful bitmap, and record
zero where the boot sector says. `StaleBitmap` and `JournalVolume` show that they can be met.

## Model

| member | source | states |
|---|---|---|
| `MultiSector.DecodeMst` | scripts/validate roothealth journal.py:100-120 | `decode_mst` is the sector-by-sector reference decoding, with the same rejected headers |
| `MultiSector.EncodeMst` | scripts/validate roothealth journal.py:123-146 | `encode_mst` is the sector-by-sector reference encoding: sequence advanced, 0xFFFF wraps to 1, every trailer saved and stamped |
| `MultiSector.FixtureDecode` | scripts/roothealth-repair/fixtures.py:175-194 | the fixture builder's decoder accepts the same records with the same result as the validator's |
| `MultiSector.FixtureEncode` | scripts/roothealth-repair/fixtures.py:197-217 | the fixture builder's encoder is the validator's without the signature test |
| `MultiSector.FixtureHeader` | scripts/roothealth-repair/fixtures.py:179-187 | the two header tests on the array's length are the same condition |
| `MultiSector.DecodeAccepts` | scripts/validate roothealth journal.py:113-120 | decoding succeeds exactly when every sector trailer holds the sequence number |
| `MultiSector.RoundTrip` | scripts/validate roothealth journal.py:100-146 | with the array off every trailer, decode after encode succeeds and returns every byte outside the array |
| `MultiSector.UneditedRoundTrip` | scripts/validate roothealth journal.py:100-146 | for an unedited decode the array comes back too: only the two sequence bytes may differ |
| `MultiSector.RewriteNormalizes` | scripts/roothealth-repair/fixtures.py:3170-3178 | a rewrite of an unedited record is invisible once the sequence bytes are blanked |
| `MultiSector.TornFrames` | scripts/validate roothealth journal.py:123-146 | an edited rewrite keeps the header, takes a different sequence number and stamps it in every sector |
| `MultiSector.TornPicksAgree` | scripts/validate roothealth journal.py:113-120 | an accepted mix cannot take its first sector from one write and another sector from the other |
| `MultiSector.TornWriteDetected` | scripts/validate roothealth journal.py:100-146 | any sector-by-sector mix of an old record and the encoding of its edit that is accepted is all old or all new, wrap-around included |
| `MultiSector.SequenceAdvances` | scripts/validate roothealth journal.py:136-146 | both encodings carry the old sequence number plus one, 1 after 0xFFFF, in the array and in every trailer |
| `ParsingRules.HeaderRule` | scripts/validate roothealth journal.py:100-112 | a header is accepted exactly with the signature, whole sectors, one array entry for each and one more, and the array past byte 8 inside the record |
| `Runlist.DecodeRunlist` | scripts/validate roothealth journal.py:221-260 | the validator's decoder is the reference decoding of mapping pairs at lowest VCN 0 |
| `Runlist.FixtureDecodeRunlist` | scripts/roothealth-repair/fixtures.py:220-262 | the fixture builder's decoder is the same reference decoding from any offset and lowest VCN, empty lists refused |
| `Runlist.LowestVcnShifts` | scripts/roothealth-repair/fixtures.py:220-262 | decoding from a lowest VCN is decoding from zero with every VCN moved up, so both decoders accept the same bytes with the same extents |
| `Runlist.DecodedContiguous` | scripts/validate roothealth journal.py:221-260 | decoded runs are non-empty and follow one another |
| `Runlist.EncodeMappingPairs` | scripts/roothealth-repair/fixtures.py:2926-2947 | the encoder's loop is the reference encoding, VCN gaps and over-wide values refused |
| `Runlist.UnsignedWidth` | scripts/roothealth-repair/fixtures.py:2908-2914 | the width holds the value and no shorter width does |
| `Runlist.SignedWidth` | scripts/roothealth-repair/fixtures.py:2917-2923 | the least signed width up to 8 that holds the value, if any does |
| `Runlist.SignedRoundTrip` | scripts/roothealth-repair/fixtures.py:2917-2923 | signed little-endian encoding and decoding are inverse |
| `Runlist.EncodedPairDecodes` | scripts/roothealth-repair/fixtures.py:2932-2945 | one encoded pair reads back as its run, whatever follows it |
| `Runlist.RoundTrip` | scripts/roothealth-repair/fixtures.py:2926-2947 | whatever the encoder accepts decodes to the same list, whatever bytes follow the terminator |
| `Runlist.EncodeAccepts` | scripts/roothealth-repair/fixtures.py:2926-2947 | every contiguous list of positive lengths below 2^64 with LCNs below 2^63 encodes |
| `Runlist.EncodeDecode` | scripts/roothealth-repair/fixtures.py:2926-2947 | both together: every such non-empty list survives encode and decode in both decoders |
| `Runlist.EncodeOnlyContiguous` | scripts/roothealth-repair/fixtures.py:2930-2932 | the encoder accepts only contiguous non-empty runs |
| `Runlist.EncodeIsShortest` | scripts/roothealth-repair/fixtures.py:2908-2947 | no array of pairs that decodes to the same runs is shorter than the encoder's |
| `Runlist.TerminatorOnly` | scripts/validate roothealth journal.py:221-260 | a terminator alone decodes to no runs exactly where an empty list is allowed |
| `Runlist.WidePairDecodes` | scripts/validate roothealth journal.py:221-260 | a pair of any field widths reads back, a zero length or a negative LCN is refused |
| `Runlist.DecodedIsWide` | scripts/validate roothealth journal.py:221-260 | and every pair that reads is one of these |
| `MappingEdit.MappingPairBounds` | scripts/roothealth-repair/fixtures.py:2856-2881 | the boundary walk is the reference walk over the mapping region |
| `MappingEdit.OneEntryPerRun` | scripts/roothealth-repair/fixtures.py:2856-2881 | whatever decodes is walked with one entry per run, in order, inside the region, up to a zero terminator |
| `MappingEdit.EditCommutes` | scripts/roothealth-repair/fixtures.py:3079-3084 | dropping the last delta in place commutes with decoding: same runs, only the last LCN gone |
| `MappingEdit.InPlaceEdit` | scripts/roothealth-repair/fixtures.py:3082-3084 | the three slice assignments change the mapping region alone, to exactly that edit |
| `MappingEdit.DropLastRun` | scripts/roothealth-repair/fixtures.py:3070-3100 | the edit of the mapping region succeeds exactly on fully mapped lists of at least two runs, and its re-decode test then holds |
| `SparseRun.FindEdited` | scripts/roothealth-repair/fixtures.py:3085-3095 | the search after the edit stops at the edited attribute |
| `SparseRun.SparseFound` | scripts/roothealth-repair/fixtures.py:3085-3095 | the re-read comparison always passes: same attribute, last run a hole |
| `SparseRun.CorruptUnflaggedSparseRun` | scripts/roothealth-repair/fixtures.py:3057-3101 | the whole operation succeeds exactly on a mapped, unflagged DATA of at least two runs, and then stores the record with only its last LCN gone; otherwise nothing is written |
| `SparseRun.SparseKeepsVolume` | scripts/roothealth-repair/fixtures.py:3057-3101 | afterwards that chain has the hole, every other live record decodes as before, and no device byte outside the record changed |
| `SparseRun.DropExists` | scripts/roothealth-repair/fixtures.py:3070-3084 | every unflagged mapped list of two runs or more, however its pairs are written, has an edit that drops the last LCN alone |
| `SparseRun.SparseAfterFragment` | scripts/roothealth-repair/fixtures.py:2950-3101 | after a reported relocation of an ordinary file the sparse edit succeeds on its result, and leaves the first run followed by a hole of one cluster |
| `Streams.StreamPhysicalRanges` | scripts/validate roothealth journal.py:361-391 | the range loop is the reference computation; no bytes asked for is an error |
| `Streams.RangesAccept` | scripts/validate roothealth journal.py:361-391 | ranges are returned exactly when every requested byte is mapped |
| `Streams.RangesMeaning` | scripts/validate roothealth journal.py:361-391 | the ranges tile the request in order and each byte lies where the reference map puts it |
| `Streams.ReadStream` | scripts/validate roothealth journal.py:335-359 | the read loop is the reference read; a request of no bytes fails |
| `Streams.ReadMeaning` | scripts/validate roothealth journal.py:335-359 | a read succeeds exactly when every byte is in a hole or on the device, and returns those bytes |
| `Streams.WriteMeaning` | scripts/validate roothealth journal.py:476-494 | with an injective map the write puts the payload byte for byte in place and leaves every other device byte alone |
| `Streams.WriteThenRead` | scripts/validate roothealth journal.py:335-391 | reading back a written interval returns the payload |
| `Streams.ReadFrame` | scripts/validate roothealth journal.py:335-359 | a read does not notice changes to bytes it does not map |
| `Streams.ExtentsInjective` | scripts/validate roothealth journal.py:361-391 | pairwise disjoint extents make the map injective |
| `Streams.InjectiveApart` | scripts/validate roothealth journal.py:476-494 | ranges of an injective map share no device byte |
| `Streams.LocateCovered` | scripts/validate roothealth journal.py:326-333 | a contiguous list maps exactly the bytes of its clusters |
| `FileRecords.ParseAttributes` | scripts/validate roothealth journal.py:398-441 | the attribute loop is the reference walk of the chain |
| `FileRecords.ParsedInOrder` | scripts/validate roothealth journal.py:398-441 | parsed attributes lie inside the used bytes, one after another |
| `FileRecords.ParseSurvivesEdit` | scripts/validate roothealth journal.py:398-441 | rewriting four bytes in one attribute's body leaves the whole parse as it was |
| `ParsingRules.AttributeRule` | scripts/validate roothealth journal.py:398-441 | which attribute headers the validator accepts and the type, place, length, residency, flags and name it reads |
| `ParsingRules.ChainRule` | scripts/validate roothealth journal.py:398-410 | the chain is walked from the word at 20, not before byte 48, up to the used bytes at 24 |
| `ParsingRules.ValueRule` | scripts/validate roothealth journal.py:534-541 | a resident value starts at the word at 20, past the header and inside the attribute |
| `ParsingRules.NameRule` | scripts/validate roothealth journal.py:621-640 | a name is read from a value long enough for it; it is the journal's exactly when it spells $RootHealth under parent 11 |
| `ParsingRules.ExtendRule` | scripts/validate roothealth journal.py:925-937 | $Extend: in use, a directory, no base record, no attribute list, no index blocks |
| `ParsingRules.RootRule` | scripts/validate roothealth journal.py:938-950 | the one resident $I30 root, keyed by file name under collation 1, with blocks of 512 to 65536 bytes |
| `ParsingRules.NodeRule` | scripts/validate roothealth journal.py:570-586 | the bounds an index node must meet, and where its entries start and end |
| `ParsingRules.EntryRule` | scripts/validate roothealth journal.py:587-618 | which entries are terminal, which are keys, and the references, name and flags read from a key |
| `ChainWalks.ParseIff` | scripts/validate roothealth journal.py:398-441 | attributes are parsed exactly when they follow one another without a gap up to an end marker in the used bytes |
| `ChainWalks.EntriesPlaced` | scripts/validate roothealth journal.py:570-618 | accepted index entries follow one another, each as long as it says, up to the terminal one |
| `ChainWalks.PlacedEntries` | scripts/validate roothealth journal.py:570-618 | and every such walk is accepted |
| `ChainWalks.KeyIff` | scripts/validate roothealth journal.py:951-974 | the index key is found exactly when one entry is called $RootHealth, and that one refers to the journal and to $Extend |
| `ChainWalks.FieldsIff` | scripts/validate roothealth journal.py:977-996 | the two fields are found exactly when one unnamed $STANDARD_INFORMATION and one $FILE_NAME of the journal give them room, every other $FILE_NAME being readable |
| `FlagCopies.FlagOffsetsSurvive` | scripts/validate roothealth journal.py:977-996 | rewriting either flag field leaves both fields where the search finds them |
| `FlagCopies.FieldsAreApart` | scripts/validate roothealth journal.py:977-996 | the two flag fields lie in different attributes and never overlap |
| `FlagCopies.IndexOffsetSurvives` | scripts/validate roothealth journal.py:925-974 | rewriting the cached flags in the index key leaves the key where the search finds it |
| `FlagCopies.NoiseKeepsFields` | scripts/validate roothealth journal.py:977-996 | bytes of the update-sequence array do not move the flag fields |
| `FlagCopies.NoiseKeepsKey` | scripts/validate roothealth journal.py:925-974 | bytes of the update-sequence array do not move the index key |
| `FlagPlaces.KeyBytes` | scripts/validate roothealth journal.py:951-969 | around the index key's flags stand the child reference, $Extend's own reference and the name $RootHealth |
| `FlagPlaces.FieldBytes` | scripts/validate roothealth journal.py:977-996 | the standard flags are word 32 of the only unnamed $STANDARD_INFORMATION, the name's are word 56 of a $FILE_NAME that spells $RootHealth under parent 11 |
| `FlagPlaces.FoundFlags` | scripts/validate roothealth journal.py:951-1020 | whenever the three copies are found, the key's child reference is the journal's record and sequence number, its parent reference record 11 and $Extend's sequence number |
| `RecordStore.WrittenReadsBack` | scripts/validate roothealth journal.py:497-518 | a record written through the fixups and the $MFT map reads back as written outside the array |
| `RecordStore.OtherRecordsKept` | scripts/validate roothealth journal.py:506-518 | writing one record leaves every other record, raw and decoded, as it was |
| `RecordStore.RecordsApart` | scripts/validate roothealth journal.py:497-518 | distinct records of an injective $MFT share no device byte |
| `RecordStore.LocateInVolume` | scripts/validate roothealth journal.py:326-333 | validated runs only name device bytes of the volume |
| `RecordPlaces.LocateIs` | scripts/validate roothealth journal.py:335-359 | a byte of a run lies as far into the run's clusters as into the run |
| `RecordPlaces.LocateNot` | scripts/validate roothealth journal.py:335-359 | a byte of no run has no place |
| `RecordPlaces.ValidatorRecord` | scripts/validate roothealth journal.py:497-503 | record n is the bytes of the $MFT from n times the record size on |
| `RecordPlaces.RecordMappedIs` | scripts/validate roothealth journal.py:506-518 | a record can be written exactly when every byte of its place in the $MFT is in a mapped run |
| `FlagRewrite.NtfsVolume.WriteStreamExact` | scripts/validate roothealth journal.py:476-494 | through any validated run list, all or nothing: succeeds exactly on a mapped non-empty interval, and then exactly the payload's places change |
| `FlagRewrite.NtfsVolume.WriteFileRecordLogical` | scripts/validate roothealth journal.py:506-518 | succeeds exactly for a record of the right size and header whose place is mapped, and writes its encoding |
| `FlagRewrite.EditedFields` | scripts/validate roothealth journal.py:1028-1035 | the edited journal record still parses, with the chosen fields new and the others old |
| `FlagRewrite.EditedKey` | scripts/validate roothealth journal.py:1032-1039 | the edited $Extend record still shows the same key, with the new flags |
| `FlagRewrite.RewriteMeaning` | scripts/validate roothealth journal.py:999-1045 | for every subset of the three copies: a fresh decode shows the new flags in the chosen copies and the old in the rest; other logical bytes outside the arrays, other records and other device bytes are unchanged |
| `FlagRewrite.NtfsVolume.RewriteJournalFlagCopies` | scripts/validate roothealth journal.py:999-1045 | the method does that, and on a ready volume succeeds exactly when the expected flags match, some copy is chosen and the value fits 32 bits; otherwise nothing is written |
| `JournalVolume.ReadyVolume` | scripts/validate roothealth journal.py:999-1045 | a concrete volume meets every hypothesis of the rewrite, so its promise is not empty |
| `Census.SortedIsSorted` | scripts/validate roothealth journal.py:867-871 | sorting yields an ordered rearrangement |
| `Census.AdjacentIsPairwise` | scripts/validate roothealth journal.py:867-876 | on a sorted list the adjacent test finds every overlap of any pair |
| `Census.ValidateJournalOwnership` | scripts/validate roothealth journal.py:862-922 | the interval census accepts exactly what the reference census accepts |
| `Census.JournalClusterOwners` | scripts/roothealth-repair/fixtures.py:819-865 | the walk over records, attributes, runs and clusters fails exactly on an undecodable run list, and maps each journal cluster to the owners of the runs that cover it, in scan order |
| `Census.RequireUniqueJournalOwner` | scripts/roothealth-repair/fixtures.py:868-877 | passes exactly when every journal cluster has the journal's unnamed DATA as its one owner |
| `Census.AcceptedIsUnique` | scripts/validate roothealth journal.py:862-922 | an accepted census leaves no journal cluster with another owner or two claims |
| `Census.ForeignSpoils` | scripts/validate roothealth journal.py:890-912 | a foreign run that overlaps the journal breaks unique ownership |
| `Census.SelfOverlapSpoils` | scripts/validate roothealth journal.py:867-876 | journal runs that overlap break unique ownership |
| `Census.CensusIsUniqueOwnership` | scripts/validate roothealth journal.py:862-922 | interval census and per-cluster owner map agree: accepted if and only if all runs are in bounds and every journal cluster has exactly the one owner |
| `Census.ClaimListed` | scripts/validate roothealth journal.py:881-893 | every cluster of every mapped run enters the owner map under its record number, type and stream name |
| `Census.ForeignStreamRefused` | scripts/validate roothealth journal.py:898-912 | a run of another record, another type or a named stream on a journal cluster is refused |
| `JournalAllocation.JournalAmongClaims` | scripts/validate roothealth journal.py:862-922 | the journal's own claims in a scan are exactly its runs |
| `JournalAllocation.CensusSettles` | scripts/validate roothealth journal.py:862-922 | on decoded records the census decides unique ownership, both ways |
| `JournalAllocation.CheckMarks` | scripts/validate roothealth journal.py:1806-1814 | the bit loop passes exactly when every cluster of every run is marked |
| `JournalAllocation.AcceptedAllocation` | scripts/validate roothealth journal.py:1743-1815 | an accepted journal's byte map is total on its size, injective, inside the volume, on marked clusters no other stream owns |
| `JournalAllocation.ValidateJournal` | scripts/validate roothealth journal.py:1743-1815 | the allocation tests accept exactly the eligible, marked, solely owned journals clear of the metadata streams, and acceptance proves that map sound |
| `StreamReading.RunsReadAt` | scripts/validate roothealth journal.py:187-201 | pairs that stand where the word at 32 says decode to the stream's runs, wherever that is |
| `StreamReading.EmptyStream` | scripts/validate roothealth journal.py:192-201 | a terminator alone is a stream of no runs exactly when flags, lowest VCN and sizes are zero and the last VCN is all ones |
| `StreamReading.SizesReadAt` | scripts/validate roothealth journal.py:182-185 | the three sizes are the words at 40, 48 and 56 |
| `StreamReading.ReadersAgree` | scripts/roothealth-repair/fixtures.py:287-311 | validator and fixture builder read the same runs, size and flags, each from the other's acceptance |
| `StreamReading.EligibleBytes` | scripts/validate roothealth journal.py:1752-1778 | the tests on the journal's record, one by one on its bytes and runs |
| `StreamReading.EligibleHasOneData` | scripts/validate roothealth journal.py:1756-1760 | an eligible record has exactly one DATA attribute, and its runs decode |
| `StreamReading.ClearIsApart` | scripts/validate roothealth journal.py:1782-1796 | the interval tests against the metadata streams refuse exactly a shared cluster |
| `StreamReading.MarkedIs` | scripts/validate roothealth journal.py:1806-1814 | the bit loop asks for exactly the clusters of the runs |
| `Superblock.PackIdentity` | scripts/validate roothealth journal.py:663-688 | the packed identity fields lie one after another in the order and widths of the format |
| `Superblock.PackPolicy` | scripts/validate roothealth journal.py:663-688 | the packed policy fields likewise |
| `Superblock.BuildEmptySuperblock` | scripts/validate roothealth journal.py:663-687 | the block is the packed fields, zeros, and the digest of what precedes it; over-wide fields are refused |
| `Superblock.IdentityIff` | scripts/validate roothealth journal.py:690-734 | the identity tests hold exactly for the bytes the builder packs |
| `Superblock.PolicyIff` | scripts/validate roothealth journal.py:690-734 | the policy tests hold exactly for the bytes the builder packs |
| `Superblock.ParseEmptySuperblock` | scripts/validate roothealth journal.py:690-734 | accepts a 4096-byte block exactly when it is the built block for the generation, sector size, serial and some non-zero UUID, and returns that UUID |
| `Superblock.BlockIs` | scripts/validate roothealth journal.py:663-734 | the built block, field by field at its offsets in plain numbers |
| `JournalHeaders.CreateSeed` | scripts/validate roothealth journal.py:2195-2224 | the seed file is the two built slots followed by zeros to the journal size |
| `JournalHeaders.SeedBytes` | scripts/validate roothealth journal.py:2195-2224 | the seed has 2^27 bytes, generations 1 and 2 in its two slots, the same serial, UUID and sector size in both, and zeros from 8192 on |
| `JournalHeaders.EntryAreaIsZero` | scripts/validate roothealth journal.py:758-768 | the chunked scan passes exactly when the entry area reads as zeros |
| `JournalHeaders.ValidateEmptyHeaders` | scripts/validate roothealth journal.py:744-778 | accepts exactly a journal whose header area is two built slots of one UUID, with a zero entry area where asked: what the seed holds passes |
| `FixtureRecords.FindAttribute` | scripts/roothealth-repair/fixtures.py:265-355 | the generator and the search stop at the reference first match, with the same malformed records refused |
| `FixtureRecords.FindInChain` | scripts/roothealth-repair/fixtures.py:351-355 | on a sound chain the search returns the first match of the whole list |
| `FixtureRecords.AttributeEndOffset` | scripts/roothealth-repair/fixtures.py:2884-2905 | the bounded walk returns the place of the end marker inside the used bytes |
| `ParsingRules.BuilderAttributeRule` | scripts/roothealth-repair/fixtures.py:265-278 | which attributes the fixture builder accepts, read from their own bytes |
| `ParsingRules.BuilderNameRule` | scripts/roothealth-repair/fixtures.py:279-289 | an attribute's name: none, or inside it from byte 24 on |
| `ParsingRules.BuilderBodyRule` | scripts/roothealth-repair/fixtures.py:290-331 | a mapped or a resident body: what is accepted, and the flags, size, runs or value read |
| `ChainWalks.ChainIff` | scripts/roothealth-repair/fixtures.py:265-348 | the generator runs to the end exactly when its attributes follow one another up to an end marker |
| `ChainWalks.FoundFirst` | scripts/roothealth-repair/fixtures.py:351-355 | what the search finds is the first match of such a walk |
| `ChainWalks.FirstFound` | scripts/roothealth-repair/fixtures.py:351-355 | and a first match is found, whatever follows it |
| `FixtureRecords.ReplacePairs` | scripts/roothealth-repair/fixtures.py:2999-3029 | the record edit is the reference edit, in place or grown by whole eight-byte steps |
| `PairReplacement.FittingChain` | scripts/roothealth-repair/fixtures.py:3028-3029 | pairs that fit: the chain afterwards differs in that attribute's runs alone |
| `PairReplacement.GrowingChain` | scripts/roothealth-repair/fixtures.py:3001-3029 | an attribute that grows was the last one; its length follows and the end marker still closes the chain |
| `PairReplacement.ReplacedChain` | scripts/roothealth-repair/fixtures.py:2999-3029 | both branches: old chain with one attribute's runs replaced; ahead of the chain only the used-bytes field may change |
| `RecordEdit.PairsFit` | scripts/roothealth-repair/fixtures.py:3028-3029 | pairs that fit replace the region, zeros behind them, and no other byte changes |
| `RecordEdit.PairsGrow` | scripts/roothealth-repair/fixtures.py:2998-3029 | else the least whole number of eights is added at the end marker, both length fields say so, the tail moves up, and no other byte changes |
| `FixtureImage.StreamSegments` | scripts/roothealth-repair/fixtures.py:358-383 | the segment generator is the reference computation |
| `FixtureImage.ReadStream` | scripts/roothealth-repair/fixtures.py:386-394 | the read is the concatenation of the segments, zeros for holes |
| `FixtureImage.GatheredIsRead` | scripts/roothealth-repair/fixtures.py:358-394 | the fixture builder and the validator read the same bytes for every non-empty request |
| `FixtureImage.PrimaryRecordOffset` | scripts/roothealth-repair/fixtures.py:414-429 | a record's place is the one mapped segment that record zero's DATA runs give |
| `FixtureImage.ReadRecord` | scripts/roothealth-repair/fixtures.py:432-443 | a record is read at that place and decoded |
| `RecordPlaces.RecordPlaceIff` | scripts/roothealth-repair/fixtures.py:414-429 | a record has a place exactly when record zero's DATA is mapped and long enough and one run holds the whole record |
| `RecordPlaces.PlaceIsMapped` | scripts/roothealth-repair/fixtures.py:414-429 | the validator's map of the same runs puts every byte of the record there |
| `RecordPlaces.RecordRead` | scripts/roothealth-repair/fixtures.py:432-443 | its logical bytes are decoded from that place |
| `RecordPlaces.WriteBytes` | scripts/roothealth-repair/fixtures.py:134-140 | a write puts its bytes in place, grows the file with zeros if it must, and keeps every other byte |
| `Bitmap.FlippedBits` | scripts/roothealth-repair/fixtures.py:481-492 | changing one bit of a byte leaves the other seven alone |
| `ParsingRules.BitRule` | scripts/validate roothealth journal.py:1806-1814 | bit c of a bitmap is in byte c / 8, least significant first |
| `VolumeKept.BitsAfter` | scripts/roothealth-repair/fixtures.py:481-492 | a bit write sets that bit and no other, through any injective map |
| `Fragmentation.NearestFreeCluster` | scripts/roothealth-repair/fixtures.py:2986-2993 | the chosen cluster is free, and no free candidate is nearer or as near and lower |
| `Fragmentation.FixtureVolume.WriteBitmapBit` | scripts/roothealth-repair/fixtures.py:481-492 | writes the bit, or fails and changes nothing when it already has the value or is not mapped |
| `Fragmentation.FixtureVolume.WriteRecord` | scripts/roothealth-repair/fixtures.py:446-460 | writes the encoding at the record's place, or fails and changes nothing |
| `Fragmentation.FixtureVolume.EnsureFragmentedData` | scripts/roothealth-repair/fixtures.py:2950-3054 | the operation succeeds exactly when the reference does, with its image and outcome |
| `FragmentOutcome.ContentReads` | scripts/roothealth-repair/fixtures.py:2965-2965 | on a sound layout the content can be read exactly when every data byte, and the first even of an empty stream, has a place |
| `FragmentOutcome.PreparedIff` | scripts/roothealth-repair/fixtures.py:2955-2965 | the first step goes through exactly on a DATA that is mapped throughout, unflagged and readable, and yields its bytes |
| `FragmentOutcome.TargetedIff` | scripts/roothealth-repair/fixtures.py:2979-2993 | a target is found exactly when a cluster from 24 on has no owner; it is the nearest such cluster, the lower of two |
| `FragmentOutcome.RewrittenIff` | scripts/roothealth-repair/fixtures.py:2998-3029 | the record edit succeeds exactly when the pairs encode and fit, or the attribute is the last and can grow by whole eights |
| `FragmentOutcome.AlreadyFragmented` | scripts/roothealth-repair/fixtures.py:2965-2973 | a readable DATA of several runs is left alone: same image, its runs and its content reported, no change |
| `FragmentOutcome.OneRunMoves` | scripts/roothealth-repair/fixtures.py:2974-3054 | with one run of two clusters or more: success, with a change to the target, exactly when its last cluster can move and the record is not 0 |
| `FragmentOutcome.FragmentDecides` | scripts/roothealth-repair/fixtures.py:2950-3054 | on a consistent volume the whole verdict, from the view alone: success and reported change, both if and only if |
| `FragmentReport.ChangeMeans` | scripts/roothealth-repair/fixtures.py:2950-3054 | on any image, sound or not, a reported change means: one run, its last cluster marked and the target the nearest clear one; afterwards the two runs, the same content, the old bit clear and the new one set |
| `FragmentReport.NoChangeMeans` | scripts/roothealth-repair/fixtures.py:2955-2973 | on any image, no reported change means: nothing written, mapped unflagged DATA of several runs, and its runs and content reported |
| `Volumes.OwnedAfter` | scripts/roothealth-repair/fixtures.py:2994-2997 | in terms of ownership exactly one cluster is given up and one taken |
| `Volumes.DisjointAfter` | scripts/roothealth-repair/fixtures.py:2994-2997 | no cluster comes to have two owners |
| `Volumes.LocateSplit` | scripts/roothealth-repair/fixtures.py:2994-2997 | a stream byte keeps its place, or its offset into the new cluster |
| `VolumeKept.BitsRelocated` | scripts/roothealth-repair/fixtures.py:3021-3026 | copy and bit writes: exactly the two bits change |
| `VolumeKept.OtherRecordKept` | scripts/roothealth-repair/fixtures.py:3021-3033 | every other live record reads as before |
| `VolumeKept.EditedReadsBack` | scripts/roothealth-repair/fixtures.py:3028-3036 | the stored record reads back with the new runs and every other attribute as it was |
| `VolumeKept.MftRefused` | scripts/roothealth-repair/fixtures.py:3033-3044 | asked for record 0 the final comparison always fails, since record zero's sequence number moved |
| `VolumeKept.TruthKept` | scripts/roothealth-repair/fixtures.py:3021-3044 | for any record but the bitmap's, a truthful bitmap is truthful again |
| `VolumeKept.BitmapStale` | scripts/roothealth-repair/fixtures.py:3021-3044 | for the bitmap's own record, an accepted run leaves the bitmap untruthful |
| `StaleBitmap.BitmapLeftStale` | scripts/roothealth-repair/fixtures.py:2950-3054 | a concrete image: consistent before, the run on the bitmap's record succeeds and reports a change, and the bitmap is untruthful afterwards |
| `VolumeKept.ContentKept` | scripts/roothealth-repair/fixtures.py:2950-3054 | every byte of every stream but the $MFT's and the bitmap's own is unchanged, the moved stream included |
| `VolumeKept.MarksConserved` | scripts/roothealth-repair/fixtures.py:3025-3026 | one mark moves: as many clusters are allocated as before |
| `VolumeKept.ElsewhereKept` | scripts/roothealth-repair/fixtures.py:3021-3033 | outside the new cluster, the two bitmap bytes and the record's place no device byte changes, and of all bits just the two |
| `VolumeKept.FragmentKeepsVolume` | scripts/roothealth-repair/fixtures.py:2950-3054 | a reported change: never record 0, two runs, disjoint extents, stream contents and every other live record kept, the moved record kept ahead of its pairs, the rest of the device kept, and the volume consistent again (bitmap truthful, count conserved) if and only if the record is not the bitmap's |
| `VolumeKept.UnchangedIsUntouched` | scripts/roothealth-repair/fixtures.py:2966-2973 | no reported change: image untouched, at least two runs already |
| `MoveCompletes.BitmapMoveOnly` | scripts/roothealth-repair/fixtures.py:3021-3044 | an accepted move of the bitmap has both changed bytes in the cluster that moved |
| `MoveCompletes.ChangeReported` | scripts/roothealth-repair/fixtures.py:2950-3054 | once the target is chosen, the operation succeeds, with a change, if and only if the pairs fit, the target's bit is mapped, the record is not 0 and, for the bitmap, both changed bytes lie in the moved cluster |
| `PairPromotion.StepKeepsInv` | development/build python runtime.py:2097-2175 | every step, failure, death and restart keeps the invariant |
| `PairPromotion.PromotionIsAtomic` | development/build python runtime.py:2097-2175 | in every run: the remnants failure is unreachable, and whenever the journal is gone both destinations hold the staged trees if the committed journal was written, else what they held before |
| `PairPromotion.CommittedMeansWritten` | development/build python runtime.py:2170-2171 | the outcome turns in the one step that writes the committed journal |
| `PairPromotion.RecoverAllIdempotent` | development/build python runtime.py:2097-2131 | recovering a recovered disk changes nothing |
| `PairPromotion.RecoveryConfluent` | development/build python runtime.py:2097-2131 | no step of recovery, half removals included, changes where recovery ends |
| `PairPromotion.RecoveryOfAnyDisk` | development/build python runtime.py:2097-2131 | on any disk, reachable or not, an undisturbed recovery completes only where and as the reference does, and fails only where that refuses |
| `PairPromotion.RecoveryEndsAlike` | development/build python runtime.py:2097-2131 | recovery interrupted and rerun any number of times ends on the same disk as one left alone |
| `PairPromotion.RecoveryCompletes` | development/build python runtime.py:2097-2131 | from every reachable state a recovery left alone completes on the outcome |
| `PairPromotion.PromotionCompletes` | development/build python runtime.py:2134-2175 | from every reachable state of a promotion some run commits and completes on the staged trees: no copy or rename is ever blocked |
| `PairPromotion.ReleasePair.RecoverIncompletePromotion` | development/build python runtime.py:2097-2131 | the recovery loop is the reference recovery, refusing unjournaled remnants |
| `PairPromotion.ReleasePair.PromoteReleasePair` | development/build python runtime.py:2134-2175 | after recovery both trees are new or both as they were, by whether verification passed |
| `TriplePromotion.StepKeepsInv` | development/promote python 3.14 runtime.py:543-667 | every step, failure, death and restart keeps the invariant |
| `TriplePromotion.FailClosed` | development/promote python 3.14 runtime.py:543-667 | in every run: no journal only when three destinations and the lock are one generation; while moving, each old tree is whole at its destination or backup; once complete, all three new trees and the lock are in place |
| `TriplePromotion.RecoveryExactly` | development/promote python 3.14 runtime.py:543-573 | recovery of an interrupted swap returns if and only if no new tree had been moved in, and then the disk is at the old generation; a second recovery changes nothing |
| `TriplePromotion.RecoveryConfluent` | development/promote python 3.14 runtime.py:543-573 | no step of recovery changes where it ends, nor whether it returns |
| `TriplePromotion.RecoveryOfAnyDisk` | development/promote python 3.14 runtime.py:543-573 | on any disk, reachable or not, an undisturbed recovery returns and raises only where and as the reference does |
| `TriplePromotion.RecoveryEndsAlike` | development/promote python 3.14 runtime.py:543-573 | recovery interrupted and rerun any number of times returns only on the disk, and only where, one left alone would |
| `TriplePromotion.RecoveryCompletes` | development/promote python 3.14 runtime.py:543-573 | from every reachable state a recovery left alone returns unless a swap was interrupted with a new tree in place, and then refuses |
| `TriplePromotion.StuckStaysStuck` | development/promote python 3.14 runtime.py:543-573 | once interrupted with a new tree in place, no step clears the journal |
| `TriplePromotion.StuckForever` | development/promote python 3.14 runtime.py:543-573 | nor does any later run |
| `TriplePromotion.SwapReachable` | development/promote python 3.14 runtime.py:576-665 | from a clean machine some run ends with the next generation in place and no journal |
| `TriplePromotion.StuckReachable` | development/promote python 3.14 runtime.py:636-661 | and some run ends stuck: the process dies after the first new tree was moved in |
| `TriplePromotion.Promotion.RecoverPromotion` | development/promote python 3.14 runtime.py:543-573 | the recovery routine is the reference recovery |
| `TriplePromotion.Promotion.Swap` | development/promote python 3.14 runtime.py:636-661 | the swap ends with the new generation in place, the old in the archive, and no journal |
| `NativeClosure.ExpandNativeClosure` | development/build python runtime.py:962-976 | terminates with exactly the names reachable through recorded dependencies: the least closed superset |
| `NativeClosure.ReachableIsLeast` | development/build python runtime.py:962-976 | reachability and least closure are the same set |
| `NativeClosure.ClosureProvided` | development/build python runtime.py:923-931 | with every catalogued need provided, the closure is provided if and only if the initial names are |
| `NativeClosure.LockTests` | development/build python runtime.py:905-928 | the two tests in plain terms: every need of a catalogued ELF file, the loader and every consumer's needs are catalogued paths |
| `NativeClosure.MetadataIs` | development/build python runtime.py:901-912 | a path's recorded needs are those of the last ELF file of that path |
| `NativeClosure.SelfContainedIsClosed` | development/build python runtime.py:920-976 | the closure is the least set with the loader, the consumers' needs and, with a recorded file, all it needs |
| `NativeClosure.CreateNativeCatalogueLock` | development/build python runtime.py:888-931 | succeeds exactly when every catalogued need and every consumer need is provided, with the least closure |
| `TreeDigest.InstallTreeSummary` | development/build python runtime.py:297-317 | the summary counts the lists, adds the sizes and hashes the reference text |
| `TreeDigest.DecimalInjective` | development/build python runtime.py:305-311 | distinct sizes print differently |
| `TreeDigest.TerminatedInjective` | development/build python runtime.py:300-311 | lines without line feeds are recovered from the joined text |
| `TreeDigest.BoundaryFixed` | development/build python runtime.py:300-311 | equal lines put the boundary between directories and files at the same place |
| `TreeDigest.TextInjective` | development/build python runtime.py:297-317 | equal texts come from equal ordered lists, for all paths without line feeds |
| `TreeDigest.AcceptedIsPlain` | development/build python runtime.py:353-354 | paths that pass the inventory's check carry no line feed |
| `TreeDigest.LineFeedBreaksIt` | development/build python runtime.py:353-354 | without the check two different trees share one text |
| `ChangedRanges.FindChangedRanges` | scripts/roothealth-repair/fixtures.py:3181-3203 | fails exactly on unequal sizes or equal records; else ordered, non-empty, maximal ranges covering exactly the differing positions |
| `ChangedRanges.ExactIsUnique` | scripts/roothealth-repair/fixtures.py:3181-3203 | there is only one such list |
| `ChangedRanges.PatchRebuilds` | scripts/roothealth-repair/fixtures.py:4222-4236 | patching the ranges' before-bytes into `after` rebuilds `before` |
| `ChangedRanges.Reconstruct` | scripts/roothealth-repair/fixtures.py:4222-4236 | the reconstruction loop fails exactly on ill-fitting evidence and otherwise patches and compares every range |
| `ChangedRanges.BytesOutsideRanges` | scripts/roothealth-repair/fixtures.py:3206-3219 | fails exactly on overlapping or overrunning ranges, else keeps exactly the bytes outside them |
| `ChangedRanges.KeptEqualIff` | scripts/roothealth-repair/fixtures.py:3206-3219 | two records keep the same bytes if and only if they agree at every position outside the ranges |
| `ChangedRanges.KeptPositions` | scripts/roothealth-repair/fixtures.py:3206-3219 | what is kept are the bytes at the positions outside the ranges, each once and in order |
| `ChangedRanges.OutsideAgrees` | scripts/roothealth-repair/fixtures.py:3181-3219 | outside the changed ranges `before` and `after` agree |
| `ChunkedSearch.FileContains` | development/build chromium runtime.py:199-208 | for every non-empty needle and every cut into chunks: found if and only if it occurs in the whole file; an empty needle is found in any non-empty file |
| `ChunkedSearch.TailSuffices` | development/build chromium runtime.py:200-207 | keeping one byte less than the needle loses no match across a boundary |
| `ChunkedSearch.OccursIs` | development/build chromium runtime.py:199-208 | a match compares the needle byte by byte, at any place of the file |

## Left out

- Error messages: every failure is one `Err`; which of several tests raised is not modelled.
- UTF-16: attribute names are byte strings, so a name that is not valid UTF-16 is not refused.
- The boot sector, the constructor of `NtfsVolume`, and attribute fields no modelled step reads (instance, initialized, allocated and compressed sizes of the fixture builder's attributes).
- `find_journal` and the namespace scan, `iter_mft_records` and the MFT bitmap: the journal record and the list of scanned records are parameters.
- JournalAllocation.ValidateJournal: the metadata streams' runs and the bitmap bytes are parameters, since reading them adds only stream reads proved elsewhere; the flags, name and header checks after the bitmap loop are not part of it.
- Superblock.ParseEmptySuperblock: SHA-256 is an uninterpreted 32-byte function and a UUID is its 16 bytes.
- JournalHeaders.CreateSeed: the volume's sector size and serial and the fresh UUID are parameters; file creation, fsync and the report are left out.
- FlagRewrite.NtfsVolume.WriteStreamExact: run lists the validator has not checked, and short device writes, are not modelled.
- FlagPlaces.FoundFlags: record numbers below 2^48, which is all a file reference can hold.
- FlagRewrite.NtfsVolume.RewriteJournalFlagCopies: the equivalence of success is for volumes that meet the stated hypotheses; other volumes get only the first clause.
- Fragmentation.FixtureVolume.EnsureFragmentedData: a failed run may leave the image half changed, as in the source; nothing is claimed about it. The returned digest is the content itself.
- VolumeKept.FragmentKeepsVolume: where the image ends before the volume does the source's writes grow it, which the operation models and this result does not cover; the $MFTMirr copy of a record below 4 is not updated by the operation and its content therefore goes stale; streams are judged by their runs, so data behind attribute lists counts as separate streams.
- SparseRun.CorruptUnflaggedSparseRun: the report, and the attribute instance number its comparison also reads; the edit leaves those bytes alone.
- Census.JournalClusterOwners: the allocated records and their decoded run lists are parameters.
- PairPromotion.PromotionIsAtomic: each journal write is one atomic step, although `write_json` writes in place.
- PairPromotion.ReleasePair.PromoteReleasePair: the manifest and inventory comparison is one boolean; interruptions are in the step relation.
- TriplePromotion.FailClosed: safety only. Whether a retried promotion gets past its archive is not claimed; pruning may remove any archived tree while no journal exists.
- TriplePromotion.Promotion.Swap: the copy of the old lock into the archive and the staging work before it are left out.
- NativeClosure.CreateNativeCatalogueLock: ELF parsing gives the needed names as parameters; the provenance fields of the report are left out.
- TreeDigest.TextInjective: text before UTF-8 encoding, which is injective; modes and digests are single tokens, as their producers make them.
- sysfs, loop, dm-crypt, mount and GPT attestation, subprocess, ELF, compiler and network orchestration, the source-hash gates, the C probes, and the remaining fixture corruptions: environment reads or single edits without an invariant of their own.
