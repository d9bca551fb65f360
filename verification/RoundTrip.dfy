/**
  Writer against reader. Every lemma is about bytes `b` laid out for resources
  `rs` in some variant, with anything behind them; the plain container is one
  such `b`.
 */
module RoundTrip {
  import opened Bytes
  import opened ErfFormat
  import opened Manifests
  import opened StringTables
  import opened MetadataBlocks
  import opened Packing
  import opened Layout
  import opened Reader
  import H = HashIndex
  import Fnv1a
  import Crc64

  predicate LaidOut(b: seq<byte>, rs: seq<Resource>, v: Variant, checksum: u64) {
    ValidVariant(v, |rs|) && Fits(rs, Base(v, |rs|)) && Laid(b, rs, v, checksum)
  }

  // ---------- opening ----------

  lemma HeaderReadsBack(b: seq<byte>, rs: seq<Resource>, v: Variant, checksum: u64)
    requires LaidOut(b, rs, v, checksum)
    ensures |b| >= HEADER_SIZE && b[..4] == MAGIC && DecodeHeader(b) == HeaderOf(rs, v, checksum)
  {
    hide EncodeHeader, DecodeHeader, RegionsPlaced, Fits, HeaderOf, Directory;
    HeaderRoundTrip(b, HeaderOf(rs, v, checksum), v.reserved0, v.padding, v.headerTail);
  }

  lemma BitTwo(unknown: nat, low: nat)
    requires low < 4
    ensures ((4 + low + 8 * unknown) / 4) % 2 == 1
  {
    var q := 1 + 2 * unknown;
    assert 4 + low + 8 * unknown == 4 * q + low;
    QuotientOfFour(q, low);
    OddNumber(unknown);
  }

  lemma QuotientOfFour(q: nat, low: nat)
    requires low < 4
    ensures (4 * q + low) / 4 == q
  {
  }

  lemma OddNumber(n: nat)
    ensures (1 + 2 * n) % 2 == 1
  {
  }

  lemma FlagsSayTable(rs: seq<Resource>, unknown: nat)
    requires unknown < 0x2000_0000
    ensures (FlagsOf(rs, unknown) / HFLAG_HASH_TABLE) % 2 == 1
  {
    hide HasMetadata, IsLocalized;
    var low := (if HasMetadata(rs) then HFLAG_METADATA else 0) + (if IsLocalized(rs) then HFLAG_LOCALIZED else 0);
    BitTwo(unknown, low);
  }

  lemma HeaderIsAccepted(b: seq<byte>, rs: seq<Resource>, v: Variant, checksum: u64)
    requires LaidOut(b, rs, v, checksum)
    ensures HeaderAccepted(b) && DecodeHeader(b) == HeaderOf(rs, v, checksum)
    ensures HasHashTable(DecodeHeader(b))
  {
    hide DecodeHeader, PlanOf, Placed, HeaderBytes, Directory, FlagsOf, IsLocalized, HasMetadata;
    HeaderReadsBack(b, rs, v, checksum);
    PlanOrdered(rs, Base(v, |rs|));
    FlagsSayTable(rs, v.unknownFlags);
  }

  lemma EntryReadsBack(b: seq<byte>, rs: seq<Resource>, v: Variant, checksum: u64, i: nat)
    requires LaidOut(b, rs, v, checksum) && i < |rs|
    ensures HeaderAccepted(b) && i < DecodeHeader(b).resourceCount
    ensures EntryAt(b, i) == EntryOf(rs, Base(v, |rs|), i)
  {
    hide DecodeHeader, DecodeEntry, Placed, HeaderBytes, RegionsPlaced, EncodeEntry, HasHashTable, Fits, EntryOf,
         HeaderAccepted, Flatten, PlanOf;
    HeaderIsAccepted(b, rs, v, checksum);
    var blocks := EntryBlocks(rs, v);
    FlattenAt(blocks, Stride(v), i);
    PlacedTrans(b, HeaderSize(v), Directory(rs, v), i * Stride(v), blocks[i]);
    EntryRoundTrip(b, HeaderSize(v) + i * Stride(v), EntryOf(rs, Base(v, |rs|), i), v.extras[i].reserved0, v.extras[i].tail);
  }

  lemma RegionAt(b: seq<byte>, rs: seq<Resource>, v: Variant, checksum: u64)
    requires LaidOut(b, rs, v, checksum)
    ensures var p := PlanOf(rs, Base(v, |rs|));
            && p.total <= |b|
            && Placed(b, p.strings, StringBytes(rs))
            && Placed(b, p.metadata, All(MetaPieces(rs), 8, p.metadata))
            && Placed(b, p.table, TableImage(TableOf(rs)))
            && Placed(b, p.data, All(DataPieces(rs), 16, p.data))
  {
  }

  lemma TableReadsBack(b: seq<byte>, rs: seq<Resource>, v: Variant, checksum: u64)
    requires LaidOut(b, rs, v, checksum)
    ensures var p := PlanOf(rs, Base(v, |rs|));
            && p.table + TABLE_HEADER_SIZE + |TableOf(rs)| * BUCKET_SIZE <= p.total <= |b|
            && |TableOf(rs)| == H.BucketCount(|rs|)
            && U32At(b, p.table) == |TableOf(rs)|
            && Placed(b, p.table + TABLE_HEADER_SIZE, Flatten(BucketBlocks(TableOf(rs))))
  {
    hide *;
    LaidOutFits(b, rs, v, checksum);
    FewEnough(rs, Base(v, |rs|));
    var p, t := PlanOf(rs, Base(v, |rs|)), TableOf(rs);
    RegionAt(b, rs, v, checksum);
    PlanOrdered(rs, Base(v, |rs|));
    TableParts(rs);
    PlacedSplit(b, p.table, Nums([|t|, 0], 4), Flatten(BucketBlocks(t)));
    CountField(b, p.table, |t|);
  }

  lemma FewEnough(rs: seq<Resource>, base: nat)
    requires Fits(rs, base)
    ensures |rs| < 0x4000_0000
  {
    hide PlanOf, AllWellFormed;
  }

  lemma TableParts(rs: seq<Resource>)
    requires |rs| < 0x4000_0000
    ensures |TableOf(rs)| == H.BucketCount(|rs|) < TWO32
    ensures TableImage(TableOf(rs)) == Nums([|TableOf(rs)|, 0], 4) + Flatten(BucketBlocks(TableOf(rs)))
    ensures |Nums([|TableOf(rs)|, 0], 4)| == TABLE_HEADER_SIZE
  {
    hide H.BucketCount, H.Filled, Flatten, BucketBlocks;
    H.BucketCountBounds(|rs|);
  }

  lemma CountField(b: seq<byte>, off: nat, n: nat)
    requires Placed(b, off, Nums([n, 0], 4)) && n < TWO32
    ensures off + 4 <= |b| && U32At(b, off) == n
  {
    hide Placed, Nums, Num;
    Widths();
    ReadNums(b, off, [n, 0], 4, 0);
  }

  lemma BucketReadsBack(b: seq<byte>, rs: seq<Resource>, v: Variant, checksum: u64, s: nat)
    requires LaidOut(b, rs, v, checksum) && s < |TableOf(rs)|
    ensures var p := PlanOf(rs, Base(v, |rs|));
            && p.table + TABLE_HEADER_SIZE + s * BUCKET_SIZE + BUCKET_SIZE <= |b|
            && DecodeBucket(b, p.table + TABLE_HEADER_SIZE + s * BUCKET_SIZE) == TableOf(rs)[s]
  {
    hide PlanOf, Placed, Flatten, LaidOut, EncodeBucket, DecodeBucket, H.BucketCount, H.Filled, TableOf;
    LaidOutFits(b, rs, v, checksum);
    var p, t := PlanOf(rs, Base(v, |rs|)), TableOf(rs);
    TableReadsBack(b, rs, v, checksum);
    FlattenAt(BucketBlocks(t), BUCKET_SIZE, s);
    PlacedTrans(b, p.table + TABLE_HEADER_SIZE, Flatten(BucketBlocks(t)), s * BUCKET_SIZE, BucketBlocks(t)[s]);
    BucketRoundTrip(b, p.table + TABLE_HEADER_SIZE + s * BUCKET_SIZE, t[s]);
  }

  /** The bytes are accepted. */
  lemma IsAccepted(b: seq<byte>, rs: seq<Resource>, v: Variant, checksum: u64)
    requires LaidOut(b, rs, v, checksum)
    ensures Accepts(b)
  {
    hide DecodeHeader, HeaderAccepted, LaidOut, PlanOf, EntryAt, HasHashTable, U32At, TableOf, H.BucketCount;
    HeaderIsAccepted(b, rs, v, checksum);
    TableReadsBack(b, rs, v, checksum);
    assert LaidOut(b, rs, v, checksum) ==> Fits(rs, Base(v, |rs|)) by { LaidOutFits(b, rs, v, checksum); }
    forall i | 0 <= i < |rs|
      ensures EntryAccepted(b, i)
    {
      EntryReadsBack(b, rs, v, checksum, i);
      OffsetsFit(rs, Base(v, |rs|), i);
      PlanOrdered(rs, Base(v, |rs|));
    }
  }

  lemma LaidOutFits(b: seq<byte>, rs: seq<Resource>, v: Variant, checksum: u64)
    requires LaidOut(b, rs, v, checksum)
    ensures ValidVariant(v, |rs|) && Fits(rs, Base(v, |rs|))
  {
  }

  /** What the handle holds for resource i. */
  lemma ResourceReadsBack(b: seq<byte>, rs: seq<Resource>, v: Variant, checksum: u64, i: nat)
    requires LaidOut(b, rs, v, checksum) && i < |rs|
    ensures Accepts(b) && |Opened(b).resources| == |rs|
    ensures Opened(b).resources[i] == ResourceOf(EntryOf(rs, Base(v, |rs|), i))
  {
    hide DecodeHeader, HeaderAccepted, LaidOut, EntryOf, EntryAt, HasHashTable, U32At, TableAccepted, EntryAccepted;
    LaidOutFits(b, rs, v, checksum);
    IsAccepted(b, rs, v, checksum);
    HeaderIsAccepted(b, rs, v, checksum);
    EntryReadsBack(b, rs, v, checksum, i);
  }

  lemma NameBytes(rs: seq<Resource>, i: nat)
    requires i < |rs|
    ensures Names(rs)[i] == rs[i].name && rs[i].name in Distinct(Names(rs))
    ensures StringBytes(rs) == TableBytes(Distinct(Names(rs)))
    ensures forall base: nat :: NameOffset(Names(rs), base, i) == base + OffsetIn(Distinct(Names(rs)), rs[i].name)
    ensures forall b, off: nat :: Placed(b, off, rs[i].name + [0]) ==> CStringIs(b, off, rs[i].name)
    ensures forall b, off: nat :: CStringIs(b, off, rs[i].name) ==> Placed(b, off, rs[i].name + [0])
  {
    hide Distinct, OffsetIn, TableBytes, Placed;
    assert Names(rs)[i] in Distinct(Names(rs));
  }

  lemma PieceIsPayload(rs: seq<Resource>, pos: nat, i: nat)
    requires i < |rs|
    ensures DataPieces(rs)[i] == Some(Payload(rs[i]))
    ensures PieceOffset(DataPieces(rs), 16, pos, i) >= pos
  {
    hide PosAfter;
  }

  lemma PieceIsBlock(rs: seq<Resource>, pos: nat, i: nat)
    requires i < |rs| && rs[i].metadata != []
    ensures MetaPieces(rs)[i] == Some(Block(rs[i].metadata))
    ensures PieceOffset(MetaPieces(rs), 8, pos, i) >= pos
  {
    hide PosAfter, Block;
  }

  lemma NameReadsBack(b: seq<byte>, rs: seq<Resource>, v: Variant, checksum: u64, i: nat)
    requires LaidOut(b, rs, v, checksum) && i < |rs|
    ensures CStringIs(b, NameOffset(Names(rs), PlanOf(rs, Base(v, |rs|)).strings, i), rs[i].name)
  {
    hide *;
    NameBytes(rs, i);
    var p, ds := PlanOf(rs, Base(v, |rs|)), Distinct(Names(rs));
    RegionAt(b, rs, v, checksum);
    NameAtOffset(ds, rs[i].name);
    PlacedTrans(b, p.strings, StringBytes(rs), OffsetIn(ds, rs[i].name), rs[i].name + [0]);
  }

  lemma PayloadReadsBack(b: seq<byte>, rs: seq<Resource>, v: Variant, checksum: u64, i: nat)
    requires LaidOut(b, rs, v, checksum) && i < |rs|
    ensures Placed(b, PieceOffset(DataPieces(rs), 16, PlanOf(rs, Base(v, |rs|)).data, i), Payload(rs[i]))
  {
    hide *;
    PieceIsPayload(rs, PlanOf(rs, Base(v, |rs|)).data, i);
    var p, ps := PlanOf(rs, Base(v, |rs|)), DataPieces(rs);
    RegionAt(b, rs, v, checksum);
    PieceAt(ps, 16, p.data, i);
    PlacedTrans(b, p.data, All(ps, 16, p.data), PieceOffset(ps, 16, p.data, i) - p.data, Payload(rs[i]));
  }

  lemma MetadataReadsBack(b: seq<byte>, rs: seq<Resource>, v: Variant, checksum: u64, i: nat)
    requires LaidOut(b, rs, v, checksum) && i < |rs| && rs[i].metadata != []
    ensures Placed(b, PieceOffset(MetaPieces(rs), 8, PlanOf(rs, Base(v, |rs|)).metadata, i), Block(rs[i].metadata))
  {
    hide *;
    PieceIsBlock(rs, PlanOf(rs, Base(v, |rs|)).metadata, i);
    var p, ps := PlanOf(rs, Base(v, |rs|)), MetaPieces(rs);
    RegionAt(b, rs, v, checksum);
    PieceAt(ps, 8, p.metadata, i);
    PlacedTrans(b, p.metadata, All(ps, 8, p.metadata), PieceOffset(ps, 8, p.metadata, i) - p.metadata, Block(rs[i].metadata));
  }

  // ---------- main results ----------

  /** Entry `r` of handle `c` is resource `want`: every field, the name as a C string, the payload bytes. */
  predicate Delivers(c: ERFContainer, r: ERFResource, want: Resource) {
    && r.id == want.finalId && r.typ == want.typ && r.language == want.language && r.flags == want.flags
    && r.timestamp == 0
    && CStringIs(c.base, r.name, want.name)
    && r.size == |Payload(want)|
    && Placed(c.base, r.data, Payload(want))
    && r.data % 16 == 0
    && (r.metadataOffset == 0 <==> want.metadata == [])
    && (want.metadata != [] ==> Placed(c.base, r.metadataOffset, Block(want.metadata)) && r.metadataOffset % 8 == 0)
  }

  /** Whatever variant it is laid out in, a container opens to its resources, in manifest order. */
  lemma OpensToResources(b: seq<byte>, rs: seq<Resource>, v: Variant, checksum: u64, i: nat)
    requires LaidOut(b, rs, v, checksum) && i < |rs|
    ensures Accepts(b) && |Opened(b).resources| == |rs|
    ensures Delivers(Opened(b), Opened(b).resources[i], rs[i])
  {
    hide LaidOut, PlanOf, Placed, Packed, PosAfter, Block, Accepts, Distinct, OffsetIn, Padding;
    LaidOutFits(b, rs, v, checksum);
    ResourceReadsBack(b, rs, v, checksum, i);
    NameReadsBack(b, rs, v, checksum, i);
    PayloadReadsBack(b, rs, v, checksum, i);
    var p := PlanOf(rs, Base(v, |rs|));
    OffsetsFit(rs, Base(v, |rs|), i);
    Aligned16(PosAfter(DataPieces(rs), 16, p.data, i));
    Aligned8(PosAfter(MetaPieces(rs), 8, p.metadata, i));
    if rs[i].metadata != [] {
      MetadataReadsBack(b, rs, v, checksum, i);
    }
  }

  /** Every name a built container's entries point at ends: the reader's strcmp stays inside. */
  lemma NamesAreTerminated(b: seq<byte>, rs: seq<Resource>, v: Variant, checksum: u64)
    requires LaidOut(b, rs, v, checksum)
    ensures Accepts(b) && |Opened(b).resources| == |rs|
    ensures forall i :: 0 <= i < |rs| ==> Terminated(b, Opened(b).resources[i].name)
  {
    hide LaidOut, Accepts, Opened, Placed, CStringIs, Terminated, Block;
    CountReadsBack(b, rs, v, checksum);
    OpenedBase(b);
    forall i | 0 <= i < |rs|
      ensures Terminated(b, Opened(b).resources[i].name)
    {
      OpensToResources(b, rs, v, checksum, i);
      CStringIsTerminated(b, Opened(b).resources[i].name, rs[i].name);
    }
  }

  /** No lookup in a built container reads past its bytes. */
  lemma LookupsStayInside(b: seq<byte>, rs: seq<Resource>, v: Variant, checksum: u64, name: seq<byte>)
    requires LaidOut(b, rs, v, checksum) && 0 !in name
    ensures Accepts(b) && TableInside(Opened(b)) && LookupInside(Opened(b), name)
  {
    hide LaidOut, Accepts, Opened, Terminated, TableInside, LookupInside;
    NamesAreTerminated(b, rs, v, checksum);
    TableIsBuilt(b, rs, v, checksum);
    OpenedBase(b);
    TerminatedLookupInside(Opened(b), name);
  }

  /** `name_offset` counts from the start of the container: it is the header's string offset plus
      the name's place in the table, and never that place alone, which is what a reader that
      followed the specification's wording would expect. */
  lemma NameOffsetIsAbsolute(b: seq<byte>, rs: seq<Resource>, v: Variant, checksum: u64, i: nat)
    requires LaidOut(b, rs, v, checksum) && i < |rs|
    ensures HeaderAccepted(b) && i < DecodeHeader(b).resourceCount
    ensures EntryAt(b, i).nameOffset == StringsStart(b) + NameOffset(Names(rs), 0, i)
    ensures CStringIs(StringBytes(rs), NameOffset(Names(rs), 0, i), rs[i].name)
    ensures EntryAt(b, i).nameOffset > NameOffset(Names(rs), 0, i)
  {
    hide *;
    LaidOutFits(b, rs, v, checksum);
    EntryReadsBack(b, rs, v, checksum, i);
    HeaderReadsBack(b, rs, v, checksum);
    NameBytes(rs, i);
    NameAtOffset(Distinct(Names(rs)), rs[i].name);
    StringOffsets(b, rs, v, checksum, i);
  }

  /** The header's string_table_offset. */
  function StringsStart(b: seq<byte>): u64
    requires HeaderAccepted(b)
  {
    DecodeHeader(b).stringOffset
  }

  lemma StringOffsets(b: seq<byte>, rs: seq<Resource>, v: Variant, checksum: u64, i: nat)
    requires ValidVariant(v, |rs|) && Fits(rs, Base(v, |rs|)) && i < |rs|
    requires HeaderAccepted(b) && DecodeHeader(b) == HeaderOf(rs, v, checksum)
    ensures StringsStart(b) == PlanOf(rs, Base(v, |rs|)).strings > 0
    ensures EntryOf(rs, Base(v, |rs|), i).nameOffset
            == PlanOf(rs, Base(v, |rs|)).strings + NameOffset(Names(rs), 0, i)
  {
    hide *;
    PlanOrdered(rs, Base(v, |rs|));
    BaseIsPositive(v, |rs|);
    HeaderStrings(rs, v, checksum);
    StringsStartIs(b);
    EntryName(rs, Base(v, |rs|), i);
  }

  lemma BaseIsPositive(v: Variant, n: nat)
    requires ValidVariant(v, n)
    ensures Base(v, n) > 0
  {
    hide ValidVariant;
    MulMono(0, n, Stride(v));
  }

  lemma StringsStartIs(b: seq<byte>)
    requires HeaderAccepted(b)
    ensures StringsStart(b) == DecodeHeader(b).stringOffset
  {
    hide HeaderAccepted, DecodeHeader;
  }

  lemma HeaderStrings(rs: seq<Resource>, v: Variant, checksum: u64)
    requires ValidVariant(v, |rs|) && Fits(rs, Base(v, |rs|))
    ensures HeaderOf(rs, v, checksum).stringOffset == PlanOf(rs, Base(v, |rs|)).strings
  {
    hide Fits, PlanOf, FlagsOf;
  }

  lemma EntryName(rs: seq<Resource>, base: nat, i: nat)
    requires Fits(rs, base) && i < |rs|
    ensures EntryOf(rs, base, i).nameOffset == PlanOf(rs, base).strings + NameOffset(Names(rs), 0, i)
  {
    hide Fits, PlanOf, PieceOffset, Distinct, OffsetIn, Fnv1a.HashNumber, Crc64.ChecksumNumber;
  }

  /** The fields no lookup uses: name hash, payload checksum, original size. */
  lemma EntryDescribesResource(b: seq<byte>, rs: seq<Resource>, v: Variant, checksum: u64, i: nat)
    requires LaidOut(b, rs, v, checksum) && i < |rs|
    ensures HeaderAccepted(b) && i < DecodeHeader(b).resourceCount
    ensures var e := EntryAt(b, i);
            && e.hash == Fnv1a.HashNumber(rs[i].name)
            && e.checksum == Crc64.ChecksumNumber(Payload(rs[i]))
            && e.originalSize == e.dataSize == |Payload(rs[i])|
            && e.dataOffset + e.dataSize <= |b|
            && Crc64.ChecksumNumber(b[e.dataOffset..e.dataOffset + e.dataSize]) == e.checksum
  {
    hide LaidOut, HeaderAccepted, DecodeHeader, EntryAt, PlanOf, NameOffset, PieceOffset, Fnv1a.HashNumber,
         Crc64.ChecksumNumber, Payload;
    LaidOutFits(b, rs, v, checksum);
    EntryReadsBack(b, rs, v, checksum, i);
    PayloadReadsBack(b, rs, v, checksum, i);
  }

  /** The header's offsets are where the regions are. */
  lemma HeaderLocatesRegions(b: seq<byte>, rs: seq<Resource>, v: Variant, checksum: u64)
    requires LaidOut(b, rs, v, checksum)
    ensures |b| >= HEADER_SIZE
    ensures var h := DecodeHeader(b);
            && h.resourceCount == |rs|
            && Placed(b, h.stringOffset, StringBytes(rs))
            && (if HasMetadata(rs) then Placed(b, h.metadataOffset, All(MetaPieces(rs), 8, h.metadataOffset))
                else h.metadataOffset == 0)
            && Placed(b, h.dataOffset, All(DataPieces(rs), 16, h.dataOffset))
            && h.stringOffset % 8 == 0 && h.hashTableOffset % 8 == 0 && h.dataOffset % 16 == 0
            && h.directoryOffset + |rs| * h.directoryEntrySize <= h.stringOffset
            && h.stringOffset + |StringBytes(rs)| <= h.hashTableOffset < h.dataOffset <= h.totalSize <= |b|
  {
    hide LaidOut, DecodeHeader, PlanOf, Placed, StringBytes, Packed, HasMetadata, FlagsOf, AlignUp, H.BucketCount, PosAfter;
    LaidOutFits(b, rs, v, checksum);
    HeaderReadsBack(b, rs, v, checksum);
    RegionAt(b, rs, v, checksum);
    PlanOrdered(rs, Base(v, |rs|));
    StringsEnd(rs, Base(v, |rs|));
  }

  lemma StringsEnd(rs: seq<Resource>, base: nat)
    ensures PlanOf(rs, base).stringsEnd == PlanOf(rs, base).strings + |StringBytes(rs)|
  {
    hide StringBytes, PosAfter, H.BucketCount, AlignUp;
  }

  // ---------- lookups ----------

  lemma NamesReadBack(b: seq<byte>, rs: seq<Resource>, v: Variant, checksum: u64, i: nat, name: seq<byte>)
    requires LaidOut(b, rs, v, checksum) && i < |rs| && 0 !in name
    ensures Accepts(b) && |Opened(b).resources| == |rs|
    ensures Named(Opened(b), i, name) <==> rs[i].name == name
  {
    hide Placed, Accepts, LaidOut, Payload, Block, CStringIs;
    OpensToResources(b, rs, v, checksum, i);
    NameIsCString(b, rs, v, checksum, i);
    var off := Opened(b).resources[i].name;
    if CStringIs(b, off, name) {
      CStringUnique(b, off, name, rs[i].name);
    }
  }

  lemma NameIsCString(b: seq<byte>, rs: seq<Resource>, v: Variant, checksum: u64, i: nat)
    requires LaidOut(b, rs, v, checksum) && i < |rs|
    ensures 0 !in rs[i].name
  {
    hide PlanOf;
  }

  /** The handle's bucket array is the table the builder filled. */
  lemma TableIsBuilt(b: seq<byte>, rs: seq<Resource>, v: Variant, checksum: u64)
    requires LaidOut(b, rs, v, checksum)
    ensures |rs| < 0x4000_0000 && Accepts(b)
    ensures var c := Opened(b);
            && c.hasHashTable && c.bucketCount == |TableOf(rs)| == H.BucketCount(|rs|) > 0 && TableInside(c)
            && c.buckets == PlanOf(rs, Base(v, |rs|)).table + TABLE_HEADER_SIZE
  {
    hide LaidOut, PlanOf, Placed, TableOf, DecodeHeader, ResourcesUpTo, U32At, Accepts, H.BucketCount;
    LaidOutFits(b, rs, v, checksum);
    IsAccepted(b, rs, v, checksum);
    HeaderIsAccepted(b, rs, v, checksum);
    TableReadsBack(b, rs, v, checksum);
    H.BucketCountBounds(|rs|);
  }

  lemma BucketIsBuilt(b: seq<byte>, rs: seq<Resource>, v: Variant, checksum: u64, s: nat)
    requires LaidOut(b, rs, v, checksum)
    requires |rs| < 0x4000_0000 && Accepts(b) && s < Opened(b).bucketCount
    ensures s < |TableOf(rs)| && TableInside(Opened(b)) && BucketAt(Opened(b), s) == TableOf(rs)[s]
  {
    hide LaidOut, PlanOf, Placed, TableOf, Opened, Accepts, H.BucketCount, DecodeBucket;
    TableIsBuilt(b, rs, v, checksum);
    BucketReadsBack(b, rs, v, checksum, s);
    OpenedBase(b);
  }

  lemma OpenedBase(b: seq<byte>)
    requires Accepts(b)
    ensures Opened(b).base == b
  {
  }

  lemma {:induction false} ProbeIsTableProbe(b: seq<byte>, rs: seq<Resource>, v: Variant, checksum: u64, name: seq<byte>, k: nat)
    requires LaidOut(b, rs, v, checksum) && 0 !in name
    requires |rs| < 0x4000_0000 && Accepts(b) && TableInside(Opened(b))
    requires 0 < |TableOf(rs)| == Opened(b).bucketCount && k <= Opened(b).bucketCount
    requires |Opened(b).resources| == |rs|
    ensures Probe(Opened(b), name, k) == H.Probe(TableOf(rs), Names(rs), name, k)
    decreases Opened(b).bucketCount - k
  {
    hide LaidOut, TableOf, Opened, Accepts, BucketAt, Named, H.Home, H.Slot, Fnv1a.HashNumber;
    var c, t := Opened(b), TableOf(rs);
    if k == c.bucketCount {
    } else {
      var s := H.Slot(H.Home(Fnv1a.HashNumber(name), c.bucketCount), k, c.bucketCount);
      BucketIsBuilt(b, rs, v, checksum, s);
      if t[s].directoryIndex < |rs| {
        NamesReadBack(b, rs, v, checksum, t[s].directoryIndex, name);
      }
      ProbeIsTableProbe(b, rs, v, checksum, name, k + 1);
    }
  }

  /** The fast path and the slow path agree: both give the lowest index of that
      name, or nothing exactly when no resource has it. */
  lemma LookupIsFirstOfName(b: seq<byte>, rs: seq<Resource>, v: Variant, checksum: u64, name: seq<byte>)
    requires LaidOut(b, rs, v, checksum) && 0 !in name
    ensures Accepts(b) && TableInside(Opened(b)) && Opened(b).hasHashTable && Opened(b).bucketCount > 0
    ensures Lookup(Opened(b), name) == Probe(Opened(b), name, 0) == Scan(Opened(b), name, 0)
    ensures Lookup(Opened(b), name) == H.Scan(Names(rs), name)
  {
    hide LaidOut, Opened, Accepts, Named, H.Probe, Probe, Base, PlanOf, H.Filled, FirstIndex, TableInside;
    TableIsBuilt(b, rs, v, checksum);
    CountReadsBack(b, rs, v, checksum);
    ProbeIsTableProbe(b, rs, v, checksum, name, 0);
    H.BucketCountBounds(|rs|);
    H.ProbeIsScan(Names(rs), H.BucketCount(|rs|), name);
    ScanIsTableScan(b, rs, v, checksum, name);
  }

  lemma CountReadsBack(b: seq<byte>, rs: seq<Resource>, v: Variant, checksum: u64)
    requires LaidOut(b, rs, v, checksum)
    ensures Accepts(b) && |Opened(b).resources| == |rs|
  {
    hide LaidOut, Accepts, DecodeHeader, PlanOf, U32At, HasHashTable;
    LaidOutFits(b, rs, v, checksum);
    IsAccepted(b, rs, v, checksum);
    HeaderIsAccepted(b, rs, v, checksum);
  }

  lemma ScanIsTableScan(b: seq<byte>, rs: seq<Resource>, v: Variant, checksum: u64, name: seq<byte>)
    requires LaidOut(b, rs, v, checksum) && 0 !in name
    ensures Accepts(b) && Scan(Opened(b), name, 0) == H.Scan(Names(rs), name)
  {
    hide LaidOut, Opened, Accepts, Named;
    CountReadsBack(b, rs, v, checksum);
    var c := Opened(b);
    forall i | 0 <= i < |rs|
      ensures Named(c, i, name) <==> Names(rs)[i] == name
    {
      NamesReadBack(b, rs, v, checksum, i, name);
    }
    ScanFinds(c, name, 0);
    var j := FirstIndex(Names(rs), name);
    assert j < |rs| ==> Named(c, j, name);
    assert Scan(c, name, 0).Some? ==> Names(rs)[Scan(c, name, 0).value] == name;
  }

  /** With distinct final ids, looking up an id gives back exactly its own entry. */
  lemma IdLookupIsExact(b: seq<byte>, rs: seq<Resource>, v: Variant, checksum: u64, id: u32)
    requires LaidOut(b, rs, v, checksum)
    requires forall i, j :: 0 <= i < j < |rs| ==> rs[i].finalId != rs[j].finalId
    ensures Accepts(b)
    ensures ScanId(Opened(b), id, 0).None? <==> forall i :: 0 <= i < |rs| ==> rs[i].finalId != id
    ensures forall i :: 0 <= i < |rs| ==> ScanId(Opened(b), rs[i].finalId, 0) == Some(i)
  {
    hide LaidOut, Opened, Accepts, CStringIs, Placed;
    CountReadsBack(b, rs, v, checksum);
    var c := Opened(b);
    forall i | 0 <= i < |rs|
      ensures c.resources[i].id == rs[i].finalId
    {
      OpensToResources(b, rs, v, checksum, i);
    }
    ScanIdFinds(c, id, 0);
    forall i | 0 <= i < |rs|
      ensures ScanId(c, rs[i].finalId, 0) == Some(i)
    {
      ScanIdFinds(c, rs[i].finalId, 0);
      assert c.resources[i].id == rs[i].finalId;
    }
  }

  // ---------- metadata ----------

  lemma U32ReadsBack(b: seq<byte>, off: nat, n: nat)
    requires Placed(b, off, LE(n, 4)) && n < TWO32
    ensures off + 4 <= |b| && U32At(b, off) == n
  {
    hide Num, LE;
    Widths();
    ReadNum(b, off, n, 4);
  }

  lemma FieldReadsBack(b: seq<byte>, off: nat, s: seq<byte>)
    requires Placed(b, off, Field(s)) && |s| < TWO32
    ensures off + 4 <= |b| && U32At(b, off) == |s|
    ensures CStringIs(b, off + 4, s)
  {
    hide Placed, Num, LE, U32At;
    ConcatAssoc(LE(|s|, 4), s, [0]);
    PlacedSplit(b, off, LE(|s|, 4), s + [0]);
    U32ReadsBack(b, off, |s|);
  }

  lemma FirstPair(kvs: seq<Metadata>)
    requires kvs != []
    ensures Pairs(kvs) == Field(kvs[0].key) + Field(kvs[0].value) + Pairs(kvs[1..])
  {
  }

  lemma PairReadsBack(b: seq<byte>, off: nat, kvs: seq<Metadata>)
    requires kvs != [] && Placed(b, off, Pairs(kvs))
    requires |kvs[0].key| < TWO32 && |kvs[0].value| < TWO32
    ensures ReadPair(b, off).Some?
    ensures var p := ReadPair(b, off).value;
            && CStringIs(b, p.key, kvs[0].key) && p.keyLength == |kvs[0].key|
            && CStringIs(b, p.value, kvs[0].value) && p.valueLength == |kvs[0].value|
            && Placed(b, p.next, Pairs(kvs[1..]))
  {
    hide Placed, U32At, Field, CStringIs, Pairs;
    var k, v, rest := Field(kvs[0].key), Field(kvs[0].value), Pairs(kvs[1..]);
    FirstPair(kvs);
    PlacedSplit(b, off, k + v, rest);
    PlacedSplit(b, off, k, v);
    FieldReadsBack(b, off, kvs[0].key);
    FieldReadsBack(b, off + |k|, kvs[0].value);
    PlacedInside(b, off + |k + v|, rest);
  }

  lemma {:induction false} NthPairReadsBack(b: seq<byte>, off: nat, kvs: seq<Metadata>, j: nat)
    requires j < |kvs| && Placed(b, off, Pairs(kvs))
    requires forall kv :: kv in kvs ==> |kv.key| < TWO32 && |kv.value| < TWO32
    ensures NthPair(b, off, j).Some?
    ensures CStringIs(b, NthPair(b, off, j).value.key, kvs[j].key)
    ensures CStringIs(b, NthPair(b, off, j).value.value, kvs[j].value)
    decreases j
  {
    hide Placed, ReadPair, CStringIs, Pairs;
    assert kvs[0] in kvs;
    PairReadsBack(b, off, kvs);
    if j == 0 {
    } else {
      NthPairReadsBack(b, ReadPair(b, off).value.next, kvs[1..], j - 1);
    }
  }

  /** Counts are exact, the j-th pair comes back as C strings, and every other index fails. */
  lemma MetadataRoundTrip(b: seq<byte>, rs: seq<Resource>, v: Variant, checksum: u64, i: nat)
    requires LaidOut(b, rs, v, checksum) && i < |rs|
    ensures Accepts(b) && |Opened(b).resources| == |rs|
    ensures var off := Opened(b).resources[i].metadataOffset;
            && CountAt(b, off) == |rs[i].metadata| < 0x8000_0000
            && (forall j: int :: !(0 <= j < |rs[i].metadata|) ==> MetadataAt(b, off, j) == None)
            && (forall j: int :: 0 <= j < |rs[i].metadata| ==>
                  && MetadataAt(b, off, j).Some?
                  && CStringIs(b, MetadataAt(b, off, j).value.key, rs[i].metadata[j].key)
                  && CStringIs(b, MetadataAt(b, off, j).value.value, rs[i].metadata[j].value))
  {
    hide LaidOut, Accepts, Placed, CStringIs, Opened, U32At, Pairs;
    OpensToResources(b, rs, v, checksum, i);
    MetadataIsWellFormed(b, rs, v, checksum, i);
    OpenedBase(b);
    var kvs, off := rs[i].metadata, Opened(b).resources[i].metadataOffset;
    if kvs != [] {
      BlockReadsBack(b, off, kvs);
      forall j: nat | j < |kvs|
        ensures MetadataAt(b, off, j).Some?
        ensures CStringIs(b, MetadataAt(b, off, j).value.key, kvs[j].key)
        ensures CStringIs(b, MetadataAt(b, off, j).value.value, kvs[j].value)
      {
        NthPairReadsBack(b, off + 4, kvs, j);
      }
    }
  }

  /** Reading a built container's metadata never takes the loop counter out of an int. */
  lemma CounterStaysInRange(b: seq<byte>, rs: seq<Resource>, v: Variant, checksum: u64, i: nat, index: int32)
    requires LaidOut(b, rs, v, checksum) && i < |rs|
    ensures Accepts(b) && |Opened(b).resources| == |rs|
    ensures !CounterOverflows(b, Opened(b).resources[i].metadataOffset, index)
  {
    hide LaidOut, Accepts, Opened, CountAt, MetadataAt, CStringIs;
    MetadataRoundTrip(b, rs, v, checksum, i);
  }

  lemma MetadataIsWellFormed(b: seq<byte>, rs: seq<Resource>, v: Variant, checksum: u64, i: nat)
    requires LaidOut(b, rs, v, checksum) && i < |rs|
    ensures WellFormed(rs[i])
  {
    hide PlanOf;
  }

  lemma CountIs(b: seq<byte>, off: nat)
    requires off != 0 && off + 4 <= |b|
    ensures CountAt(b, off) == U32At(b, off)
  {
    hide U32At;
  }

  lemma BlockReadsBack(b: seq<byte>, off: nat, kvs: seq<Metadata>)
    requires off != 0 && Placed(b, off, Block(kvs)) && |kvs| < TWO32
    ensures CountAt(b, off) == |kvs| && Placed(b, off + 4, Pairs(kvs))
  {
    hide Placed, LE, Pairs, U32At, CountAt;
    PlacedSplit(b, off, LE(|kvs|, 4), Pairs(kvs));
    U32ReadsBack(b, off, |kvs|);
    CountIs(b, off);
  }
}
